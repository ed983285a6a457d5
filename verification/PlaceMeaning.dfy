/** What one step of a place and a whole walk find, said over the values themselves and not by the functions that find it. */
module PlaceMeaning {
  import opened Wrappers
  import opened Place
  import opened PlaceReads

  /** The first of the fields with this very identity. */
  ghost predicate IsFieldOf(fields: seq<Field>, id: FieldId, v: Value) {
    exists i :: 0 <= i < |fields| && fields[i] == Field(id, v) && forall j :: 0 <= j < i ==> fields[j].id != id
  }

  /** The element of the slice is held by an active buffer, or by the array its stored path leads to. */
  ghost predicate Holds(store: Store, s: Value, index: nat, v: Value)
    requires s.Slice?
    decreases true, 0
  {
    match s.location
    case Ticket(t) =>
      && t in store.buffers && store.buffers[t].active
      && s.base + index in store.buffers[t].slots && store.buffers[t].slots[s.base + index] == v
    case Cell(c) =>
      c in store.cells
      && exists chain: seq<Value>, indexes :: Leads(store.cells[c], s.selectors, s.indexes, Stored, chain, indexes)
           && Last(chain).Array? && s.base + index < |Last(chain).elements| && Last(chain).elements[s.base + index] == v
  }

  ghost function Last(chain: seq<Value>): Value {
    if chain == [] then Plain(0) else chain[|chain| - 1]
  }

  /** The index a selector takes: the captured one, its own, or what its local holds where locals can be read. */
  ghost predicate Takes(selector: Selector, captured: Option<nat>, access: Access, index: int) {
    if captured.Some? then index == captured.value
    else if selector.ElementSelector? && selector.index.Proven? then index == selector.index.value
    else
      var local := if selector.ElementSelector? then selector.index.local else if selector.SliceSelector? then selector.local else 0;
      access.Live? && local in access.store.locals && index == access.store.locals[local]
  }

  /** A step into a value that reaches into no storage. */
  ghost predicate StepsWithin(current: Value, selector: Selector, captured: Option<nat>, access: Access, v: Value, index: nat) {
    match selector
    case FieldSelector(id) => current.Aggregate? && IsFieldOf(current.fields, id, v) && index == id.ordinal
    case ElementSelector(_, length) =>
      && current.Array? && Takes(selector, captured, access, index) && index < length && index < 0x20_0000_0000_0000
      && index < |current.elements| && current.elements[index] == v
    case SliceSelector(_) =>
      && current.StaticView? && Takes(selector, captured, access, index) && index < current.length
      && index < |current.bytes| && v == Plain(current.bytes[index])
  }

  ghost function CapturedAt(captured: seq<nat>, k: nat): Option<nat> {
    if k < |captured| then Some(captured[k]) else None
  }

  /** One step finds the value, at the index. */
  ghost predicate Steps(current: Value, selector: Selector, captured: Option<nat>, access: Access, v: Value, index: nat)
    decreases access.Live?, 1
  {
    || StepsWithin(current, selector, captured, access, v, index)
    || (selector.SliceSelector? && current.Slice? && access.Live? && Takes(selector, captured, access, index)
        && index < current.length && Holds(access.store, current, index, v))
  }

  /** The index a step takes lies outside what it indexes. */
  ghost predicate Misses(current: Value, selector: Selector, captured: Option<nat>, access: Access, index: int, length: nat) {
    && Takes(selector, captured, access, index)
    && match selector
       case FieldSelector(_) => false
       case SliceSelector(_) => (current.Slice? || current.StaticView?) && length == current.length && !(0 <= index < length)
       case ElementSelector(_, n) => current.Array? && length == n && !(0 <= index < length && index < 0x20_0000_0000_0000)
  }

  /** The path leads from the root through each value of the chain. */
  ghost predicate Leads(root: Value, selectors: seq<Selector>, captured: seq<nat>, access: Access, chain: seq<Value>, indexes: seq<nat>)
    decreases access.Live?, 2
  {
    && |chain| == |selectors| + 1 && |indexes| == |selectors| && chain[0] == root
    && forall k :: 0 <= k < |selectors| ==> Steps(chain[k], selectors[k], CapturedAt(captured, k), access, chain[k + 1], indexes[k])
  }

  /** The path leads as far as the step that takes an index outside. */
  ghost predicate LeadsOutside(root: Value, selectors: seq<Selector>, captured: seq<nat>, access: Access, k: int, index: int, length: nat) {
    && 0 <= k < |selectors|
    && exists chain: seq<Value>, indexes :: Leads(root, selectors[..k], captured, access, chain, indexes)
         && Misses(Last(chain), selectors[k], CapturedAt(captured, k), access, index, length)
  }

  // ---------------------------------------------------------------------------
  // One step
  // ---------------------------------------------------------------------------

  lemma {:induction false} FieldIsFound(fields: seq<Field>, id: FieldId, v: Value)
    ensures FindField(fields, id) == Some(v) <==> IsFieldOf(fields, id, v)
    decreases |fields|
  {
    if fields != [] {
      var rest := fields[1..];
      FieldIsFound(rest, id, v);
      if i :| 0 <= i < |fields| && fields[i] == Field(id, v) && forall j :: 0 <= j < i ==> fields[j].id != id {
        if i > 0 {
          assert rest[i - 1] == Field(id, v);
          assert forall j :: 0 <= j < i - 1 ==> rest[j] == fields[j + 1];
          assert IsFieldOf(rest, id, v);
        }
      }
      if fields[0].id == id {
        assert fields[0] == Field(id, v) ==> IsFieldOf(fields, id, v);
      } else if IsFieldOf(rest, id, v) {
        var i :| 0 <= i < |rest| && rest[i] == Field(id, v) && forall j :: 0 <= j < i ==> rest[j].id != id;
        assert fields[i + 1] == Field(id, v);
        assert forall j :: 0 <= j < i + 1 ==> fields[j].id != id by {
          forall j | 0 <= j < i + 1 ensures fields[j].id != id { if j > 0 { assert fields[j] == rest[j - 1]; } }
        }
      }
    }
  }

  lemma StepWithin(current: Value, selector: Selector, captured: Option<nat>, access: Access, v: Value, index: nat)
    requires !(selector.SliceSelector? && current.Slice?)
    ensures Step(current, selector, captured, access) == At(v, index) <==> StepsWithin(current, selector, captured, access, v, index)
  {
    if selector.FieldSelector? && current.Aggregate? { FieldIsFound(current.fields, selector.field, v); }
  }

  lemma StepMisses(current: Value, selector: Selector, captured: Option<nat>, access: Access, index: int, length: nat)
    ensures Step(current, selector, captured, access) == Outside(index, length) <==> Misses(current, selector, captured, access, index, length)
  {
  }

  /** One step finds exactly what it should. */
  lemma StepMeans(current: Value, selector: Selector, captured: Option<nat>, access: Access, v: Value, index: nat)
    ensures Step(current, selector, captured, access) == At(v, index) <==> Steps(current, selector, captured, access, v, index)
    decreases access.Live?, 1
  {
    if selector.SliceSelector? && current.Slice? {
      if access.Live? && Takes(selector, captured, access, index) && index < current.length {
        ElementIsHeld(access.store, current, index, v);
      }
    } else {
      StepWithin(current, selector, captured, access, v, index);
    }
  }

  /** A slice's element is exactly what its location holds. */
  lemma ElementIsHeld(store: Store, s: Value, index: nat, v: Value)
    requires s.Slice?
    ensures Element(Live(store), s.location, s.base, s.selectors, s.indexes, index) == Some(v) <==> Holds(store, s, index, v)
    decreases true, 0
  {
    if s.location.Cell? && s.location.cell in store.cells {
      var cell := store.cells[s.location.cell];
      var backing := Walk(cell, s.selectors, s.indexes, Stored);
      if backing.Resolved? { WalkMeans(cell, s.selectors, s.indexes, Stored, backing.selected, backing.indexes); }
      forall chain, indexes | Leads(cell, s.selectors, s.indexes, Stored, chain, indexes)
        ensures backing == Resolved(Last(chain), indexes)
      {
        WalkMeans(cell, s.selectors, s.indexes, Stored, Last(chain), indexes);
      }
    }
  }

  // ---------------------------------------------------------------------------
  // A whole walk
  // ---------------------------------------------------------------------------

  lemma CapturedRest(captured: seq<nat>, k: nat)
    ensures CapturedAt(Rest(captured), k) == CapturedAt(captured, k + 1)
    ensures First(captured) == CapturedAt(captured, 0)
  {
  }

  lemma LeadsFirst(root: Value, selectors: seq<Selector>, captured: seq<nat>, access: Access, chain: seq<Value>, indexes: seq<nat>)
    requires selectors != [] && Leads(root, selectors, captured, access, chain, indexes)
    ensures Steps(root, selectors[0], First(captured), access, chain[1], indexes[0])
    ensures Leads(chain[1], selectors[1..], Rest(captured), access, chain[1..], indexes[1..]) && Last(chain[1..]) == Last(chain)
  {
    hide Steps;
    CapturedRest(captured, 0);
    forall k | 0 <= k < |selectors[1..]|
      ensures Steps(chain[1..][k], selectors[1..][k], CapturedAt(Rest(captured), k), access, chain[1..][k + 1], indexes[1..][k])
    {
      CapturedRest(captured, k);
      assert Steps(chain[k + 1], selectors[k + 1], CapturedAt(captured, k + 1), access, chain[k + 2], indexes[k + 1]);
    }
  }

  lemma LeadsOneMore(root: Value, selectors: seq<Selector>, captured: seq<nat>, access: Access, chain: seq<Value>, indexes: seq<nat>, index: nat)
    requires selectors != [] && chain != [] && Leads(chain[0], selectors[1..], Rest(captured), access, chain, indexes)
    requires Steps(root, selectors[0], First(captured), access, chain[0], index)
    ensures Leads(root, selectors, captured, access, [root] + chain, [index] + indexes) && Last([root] + chain) == Last(chain)
  {
    hide Steps;
    CapturedRest(captured, 0);
    var all, found := [root] + chain, [index] + indexes;
    forall k | 0 <= k < |selectors| ensures Steps(all[k], selectors[k], CapturedAt(captured, k), access, all[k + 1], found[k]) {
      if k > 0 {
        CapturedRest(captured, k - 1);
        assert Steps(chain[k - 1], selectors[1..][k - 1], CapturedAt(Rest(captured), k - 1), access, chain[k], indexes[k - 1]);
      }
    }
  }

  /** A walk resolves exactly to what a chain of steps leads to, at the indexes the steps took. */
  lemma {:induction false} WalkMeans(root: Value, selectors: seq<Selector>, captured: seq<nat>, access: Access, v: Value, indexes: seq<nat>)
    ensures Walk(root, selectors, captured, access) == Resolved(v, indexes)
       <==> exists chain :: Leads(root, selectors, captured, access, chain, indexes) && Last(chain) == v
    decreases access.Live?, 2, |selectors|
  {
    hide Step, Steps;
    if selectors == [] {
      if indexes == [] { assert Leads(root, selectors, captured, access, [root], []); }
    } else {
      var step, walk := Step(root, selectors[0], First(captured), access), Walk(root, selectors, captured, access);
      if walk == Resolved(v, indexes) {
        StepMeans(root, selectors[0], First(captured), access, step.value, step.index);
        WalkMeans(step.value, selectors[1..], Rest(captured), access, v, indexes[1..]);
        var chain :| Leads(step.value, selectors[1..], Rest(captured), access, chain, indexes[1..]) && Last(chain) == v;
        LeadsOneMore(root, selectors, captured, access, chain, indexes[1..], step.index);
        assert indexes == [step.index] + indexes[1..];
      }
      if chain :| Leads(root, selectors, captured, access, chain, indexes) && Last(chain) == v {
        LeadsFirst(root, selectors, captured, access, chain, indexes);
        StepMeans(root, selectors[0], First(captured), access, chain[1], indexes[0]);
        WalkMeans(chain[1], selectors[1..], Rest(captured), access, v, indexes[1..]);
        assert indexes == [indexes[0]] + indexes[1..];
      }
    }
  }

  lemma OutsideLater(root: Value, selectors: seq<Selector>, captured: seq<nat>, access: Access, k: int, index: int, length: nat, v: Value, first: nat)
    requires selectors != [] && Steps(root, selectors[0], First(captured), access, v, first)
    requires LeadsOutside(v, selectors[1..], Rest(captured), access, k, index, length)
    ensures LeadsOutside(root, selectors, captured, access, k + 1, index, length)
  {
    hide Steps, Misses;
    var chain: seq<Value>, indexes :| Leads(v, selectors[1..][..k], Rest(captured), access, chain, indexes)
      && Misses(Last(chain), selectors[1..][k], CapturedAt(Rest(captured), k), access, index, length);
    assert selectors[..k + 1][1..] == selectors[1..][..k] && selectors[..k + 1][0] == selectors[0];
    LeadsOneMore(root, selectors[..k + 1], captured, access, chain, indexes, first);
    CapturedRest(captured, k);
  }

  lemma OutsideEarlier(root: Value, selectors: seq<Selector>, captured: seq<nat>, access: Access, k: int, index: int, length: nat) returns (v: Value, first: nat)
    requires k > 0 && LeadsOutside(root, selectors, captured, access, k, index, length)
    ensures Steps(root, selectors[0], First(captured), access, v, first)
    ensures LeadsOutside(v, selectors[1..], Rest(captured), access, k - 1, index, length)
  {
    hide Steps, Misses;
    var chain: seq<Value>, indexes :| Leads(root, selectors[..k], captured, access, chain, indexes)
      && Misses(Last(chain), selectors[k], CapturedAt(captured, k), access, index, length);
    v, first := chain[1], indexes[0];
    LeadsFirst(root, selectors[..k], captured, access, chain, indexes);
    assert selectors[..k][1..] == selectors[1..][..k - 1];
    CapturedRest(captured, k - 1);
  }

  /** A walk leaves the bounds exactly where a chain of steps leads to an index outside. */
  lemma {:induction false} WalkMisses(root: Value, selectors: seq<Selector>, captured: seq<nat>, access: Access, index: int, length: nat)
    ensures Walk(root, selectors, captured, access) == OutOfBounds(index, length)
       <==> exists k :: LeadsOutside(root, selectors, captured, access, k, index, length)
    decreases |selectors|
  {
    if selectors != [] {
      hide Step, Steps, Misses;
      var step := Step(root, selectors[0], First(captured), access);
      CapturedRest(captured, 0);
      StepMisses(root, selectors[0], First(captured), access, index, length);
      if step.At? {
        StepMeans(root, selectors[0], First(captured), access, step.value, step.index);
        WalkMisses(step.value, selectors[1..], Rest(captured), access, index, length);
        if k :| LeadsOutside(step.value, selectors[1..], Rest(captured), access, k, index, length) {
          OutsideLater(root, selectors, captured, access, k, index, length, step.value, step.index);
        }
      }
      if step == Outside(index, length) {
        assert Leads(root, selectors[..0], captured, access, [root], []) && Last([root]) == root;
        assert LeadsOutside(root, selectors, captured, access, 0, index, length);
      }
      if k :| LeadsOutside(root, selectors, captured, access, k, index, length) {
        if k == 0 { OutsideAtOnce(root, selectors, captured, access, index, length); }
        else {
          var v, first := OutsideEarlier(root, selectors, captured, access, k, index, length);
          StepMeans(root, selectors[0], First(captured), access, v, first);
        }
      }
    }
  }

  lemma OutsideAtOnce(root: Value, selectors: seq<Selector>, captured: seq<nat>, access: Access, index: int, length: nat)
    requires LeadsOutside(root, selectors, captured, access, 0, index, length)
    ensures Misses(root, selectors[0], First(captured), access, index, length)
  {
    CapturedRest(captured, 0);
  }

  // ---------------------------------------------------------------------------
  // A read
  // ---------------------------------------------------------------------------

  /** What a read takes for the element of a slice: that of its buffer, or of the array that is its whole cell. */
  ghost predicate HoldsDirectly(store: Store, s: Value, index: nat, v: Value)
    requires s.Slice?
  {
    match s.location
    case Ticket(_) => Holds(store, s, index, v)
    case Cell(c) =>
      && c in store.cells && store.cells[c].Array?
      && s.base + index < |store.cells[c].elements| && store.cells[c].elements[s.base + index] == v
  }

  ghost predicate Reads(current: Value, selector: Selector, captured: Option<nat>, store: Store, v: Value, index: nat) {
    || StepsWithin(current, selector, captured, Live(store), v, index)
    || (selector.SliceSelector? && current.Slice? && Takes(selector, captured, Live(store), index)
        && index < current.length && HoldsDirectly(store, current, index, v))
  }

  /** The reads lead from the root through each value of the chain. */
  ghost predicate ReadsThrough(root: Value, selectors: seq<Selector>, captured: seq<nat>, store: Store, chain: seq<Value>, indexes: seq<nat>) {
    && |chain| == |selectors| + 1 && |indexes| == |selectors| && chain[0] == root
    && forall k :: 0 <= k < |selectors| ==> Reads(chain[k], selectors[k], CapturedAt(captured, k), store, chain[k + 1], indexes[k])
  }

  lemma BufferElementIsHeld(store: Store, s: Value, index: nat, v: Value)
    requires s.Slice? && s.location.Ticket?
    ensures DirectElement(store, s.location, s.base, index) == Some(v) <==> HoldsDirectly(store, s, index, v)
  {
  }

  lemma ReadStepMeans(current: Value, selector: Selector, captured: Option<nat>, store: Store, v: Value, index: nat)
    ensures ReadStep(current, selector, captured, store) == At(v, index) <==> Reads(current, selector, captured, store, v, index)
  {
    if selector.SliceSelector? && current.Slice? {
      if current.location.Ticket? { BufferElementIsHeld(store, current, index, v); }
    } else {
      StepWithin(current, selector, captured, Live(store), v, index);
    }
  }

  lemma ReadStepMisses(current: Value, selector: Selector, captured: Option<nat>, store: Store, index: int, length: nat)
    ensures ReadStep(current, selector, captured, store) == Outside(index, length)
       <==> Misses(current, selector, captured, Live(store), index, length)
  {
    StepMisses(current, selector, captured, Live(store), index, length);
  }

  lemma ReadsFirst(root: Value, selectors: seq<Selector>, captured: seq<nat>, store: Store, chain: seq<Value>, indexes: seq<nat>)
    requires selectors != [] && ReadsThrough(root, selectors, captured, store, chain, indexes)
    ensures Reads(root, selectors[0], First(captured), store, chain[1], indexes[0])
    ensures ReadsThrough(chain[1], selectors[1..], Rest(captured), store, chain[1..], indexes[1..]) && Last(chain[1..]) == Last(chain)
  {
    hide Reads;
    CapturedRest(captured, 0);
    forall k | 0 <= k < |selectors[1..]|
      ensures Reads(chain[1..][k], selectors[1..][k], CapturedAt(Rest(captured), k), store, chain[1..][k + 1], indexes[1..][k])
    {
      CapturedRest(captured, k);
      assert Reads(chain[k + 1], selectors[k + 1], CapturedAt(captured, k + 1), store, chain[k + 2], indexes[k + 1]);
    }
  }

  lemma ReadsOneMore(root: Value, selectors: seq<Selector>, captured: seq<nat>, store: Store, chain: seq<Value>, indexes: seq<nat>, index: nat)
    requires selectors != [] && chain != [] && ReadsThrough(chain[0], selectors[1..], Rest(captured), store, chain, indexes)
    requires Reads(root, selectors[0], First(captured), store, chain[0], index)
    ensures ReadsThrough(root, selectors, captured, store, [root] + chain, [index] + indexes) && Last([root] + chain) == Last(chain)
  {
    hide Reads;
    CapturedRest(captured, 0);
    var all, found := [root] + chain, [index] + indexes;
    forall k | 0 <= k < |selectors| ensures Reads(all[k], selectors[k], CapturedAt(captured, k), store, all[k + 1], found[k]) {
      if k > 0 {
        CapturedRest(captured, k - 1);
        assert Reads(chain[k - 1], selectors[1..][k - 1], CapturedAt(Rest(captured), k - 1), store, chain[k], indexes[k - 1]);
      }
    }
  }

  /** A read comes to exactly what a chain of reads leads to. */
  lemma {:induction false} ReadMeans(root: Value, selectors: seq<Selector>, captured: seq<nat>, store: Store, v: Value)
    ensures Read(root, selectors, captured, store) == Found(v)
       <==> exists chain, indexes :: ReadsThrough(root, selectors, captured, store, chain, indexes) && Last(chain) == v
    decreases |selectors|
  {
    hide ReadStep, Reads;
    if selectors == [] {
      assert ReadsThrough(root, selectors, captured, store, [root], []);
    } else {
      var step := ReadStep(root, selectors[0], First(captured), store);
      if Read(root, selectors, captured, store) == Found(v) {
        ReadStepMeans(root, selectors[0], First(captured), store, step.value, step.index);
        ReadMeans(step.value, selectors[1..], Rest(captured), store, v);
        var chain, indexes :| ReadsThrough(step.value, selectors[1..], Rest(captured), store, chain, indexes) && Last(chain) == v;
        ReadsOneMore(root, selectors, captured, store, chain, indexes, step.index);
      }
      if chain, indexes :| ReadsThrough(root, selectors, captured, store, chain, indexes) && Last(chain) == v {
        ReadsFirst(root, selectors, captured, store, chain, indexes);
        ReadStepMeans(root, selectors[0], First(captured), store, chain[1], indexes[0]);
        ReadMeans(chain[1], selectors[1..], Rest(captured), store, v);
      }
    }
  }
}
