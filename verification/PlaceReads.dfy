/**
 Reading a place is a second walk in the evaluator, and it looks a slice's elements up in the cell the slice
 borrows from without following the path the slice keeps into that cell. This module says when that matters.
 */
module PlaceReads {
  import opened Wrappers
  import opened Place
  import opened PlaceLaws
  import opened PlaceUpdates
  import opened PlaceAssign
  import opened PlaceWalk

  // ---------------------------------------------------------------------------
  // The reading walk
  // ---------------------------------------------------------------------------

  /** An element of a slice as reads and copies look it up: straight in the cell, or in raw storage. */
  function DirectElement(store: Store, location: Location, base: nat, index: nat): Option<Value> {
    match location
    case Ticket(_) => Element(Live(store), location, base, [], [], index)
    case Cell(c) =>
      if c in store.cells && store.cells[c].Array? && base + index < |store.cells[c].elements|
      then Some(store.cells[c].elements[base + index]) else None
  }

  function ReadStep(current: Value, selector: Selector, captured: Option<nat>, store: Store): StepResult {
    if !selector.SliceSelector? || !current.Slice? then Step(current, selector, captured, Live(store))
    else
      var index := if captured.Some? then Some(captured.value as int) else ReadIndex(Live(store), selector.local);
      if index.None? then Broken
      else if index.value >= current.length then Outside(index.value, current.length)
      else
        var element := DirectElement(store, current.location, current.base, index.value);
        if element.None? then Broken else At(element.value, index.value)
  }

  datatype ReadResult = Found(value: Value) | Trap(index: int, length: nat) | Fault

  /** What a read of a place comes to. */
  function Read(root: Value, selectors: seq<Selector>, captured: seq<nat>, store: Store): ReadResult
    decreases |selectors|
  {
    if selectors == [] then Found(root)
    else
      match ReadStep(root, selectors[0], First(captured), store)
      case Broken => ReadResult.Fault
      case Outside(index, length) => Trap(index, length)
      case At(value, _) => Read(value, selectors[1..], Rest(captured), store)
  }

  /** What a read that follows the walk would come to. */
  function Followed(r: WalkResult): ReadResult {
    match r
    case Resolved(selected, _) => Found(selected)
    case OutOfBounds(index, length) => Trap(index, length)
    case Fault => ReadResult.Fault
  }

  /** The loop that reads a place is that read. */
  method ReadPlace(root: Value, selectors: seq<Selector>, captured: seq<nat>, store: Store) returns (r: ReadResult)
    ensures r == Read(root, selectors, captured, store)
  {
    var selected := root;
    for i := 0 to |selectors|
      invariant Read(root, selectors, captured, store) == Read(selected, selectors[i..], Drop(captured, i), store)
    {
      DropNext(captured, i);
      assert selectors[i..][1..] == selectors[i + 1..];
      match ReadStep(selected, selectors[i], if i < |captured| then Some(captured[i]) else None, store)
      case Broken => return ReadResult.Fault;
      case Outside(index, length) => return Trap(index, length);
      case At(value, _) => selected := value;
    }
    return Found(selected);
  }

  // ---------------------------------------------------------------------------
  // Types
  // ---------------------------------------------------------------------------

  datatype Member = Member(id: FieldId, type_: Type)

  /** A borrow's type says nothing about where its elements are. */
  datatype Type = Scalar | Borrow | Struct(members: seq<Member>) | FixedArray(element: Type, length: nat)

  ghost predicate HasType(v: Value, t: Type)
    decreases v
  {
    match v
    case Plain(_) => t.Scalar?
    case Slice(_, _, _, _, _) => t.Borrow?
    case StaticView(_, _) => t.Borrow?
    case Aggregate(fields) =>
      && t.Struct? && |t.members| == |fields|
      && forall i :: 0 <= i < |fields| ==> fields[i].id == t.members[i].id && HasType(fields[i].value, t.members[i].type_)
    case Array(elements) =>
      t.FixedArray? && t.length == |elements| && forall i :: 0 <= i < |elements| ==> HasType(elements[i], t.element)
  }

  ghost predicate Typed(store: Store) {
    forall c :: c in store.cells ==> exists t :: HasType(store.cells[c], t)
  }

  /** How deeply arrays and structs nest in a value. */
  function Depth(v: Value): nat
    decreases v, 1
  {
    match v
    case Aggregate(fields) => 1 + Deepest(v, |fields|)
    case Array(elements) => 1 + Deepest(v, |elements|)
    case _ => 0
  }

  function PartCount(v: Value): nat {
    match v
    case Aggregate(fields) => |fields|
    case Array(elements) => |elements|
    case _ => 0
  }

  function Part(v: Value, i: nat): (part: Value)
    requires i < PartCount(v)
    ensures part < v
  {
    if v.Aggregate? then v.fields[i].value else v.elements[i]
  }

  /** The depth of the deepest of the first parts. */
  function Deepest(v: Value, n: nat): nat
    requires n <= PartCount(v)
    decreases v, 0, n
  {
    if n == 0 then 0
    else
      var last, others := Depth(Part(v, n - 1)), Deepest(v, n - 1);
      if last >= others then last else others
  }

  lemma {:induction false} PartIsShallower(v: Value, i: nat, n: nat)
    requires i < n <= PartCount(v)
    ensures Depth(Part(v, i)) <= Deepest(v, n)
  {
    if i < n - 1 { PartIsShallower(v, i, n - 1); }
  }

  /** Values of one type nest equally deep. */
  lemma {:induction false} TypeFixesDepth(v: Value, w: Value, t: Type)
    requires HasType(v, t) && HasType(w, t)
    ensures Depth(v) == Depth(w)
    decreases v, 1
  {
    DeepestAgree(v, w, t, PartCount(v));
  }

  lemma {:induction false} DeepestAgree(v: Value, w: Value, t: Type, n: nat)
    requires HasType(v, t) && HasType(w, t) && n <= PartCount(v)
    ensures PartCount(w) == PartCount(v) && Deepest(v, n) == Deepest(w, n)
    decreases v, 0, n
  {
    if n > 0 {
      DeepestAgree(v, w, t, n - 1);
      TypeFixesDepth(Part(v, n - 1), Part(w, n - 1), if t.FixedArray? then t.element else t.members[n - 1].type_);
    }
  }

  // ---------------------------------------------------------------------------
  // When a read follows the walk
  // ---------------------------------------------------------------------------

  /** An array found inside a value is the shallower the longer the path to it. */
  lemma {:induction false} PathsDescend(root: Value, selectors: seq<Selector>, captured: seq<nat>)
    requires Walk(root, selectors, captured, Stored).Resolved? && Walk(root, selectors, captured, Stored).selected.Array?
    ensures Depth(Walk(root, selectors, captured, Stored).selected) + |selectors| <= Depth(root)
    decreases |selectors|
  {
    if selectors != [] {
      var step := Step(root, selectors[0], First(captured), Stored);
      PathsDescend(step.value, selectors[1..], Rest(captured));
      match selectors[0]
      case FieldSelector(id) =>
        var k := FoundFieldAt(root.fields, id);
        PartIsShallower(root, k, PartCount(root));
      case ElementSelector(_, _) => PartIsShallower(root, step.index, PartCount(root));
      case SliceSelector(_) => BytesHoldNoArray(step.value, selectors[1..], Rest(captured));
    }
  }

  /** Without a path of the slice's own, the element looked up straight is the slice's. */
  lemma DirectFollows(store: Store, s: Value, j: nat)
    requires s.Slice? && (s.location.Ticket? || s.selectors == [])
    ensures DirectElement(store, s.location, s.base, j) == SliceElement(store, s, j)
  {
    if s.location.Cell? && s.location.cell in store.cells {
      assert Walk(store.cells[s.location.cell], [], s.indexes, Stored) == Resolved(store.cells[s.location.cell], []);
    }
  }

  /** Looking an element up straight in the cell finds it exactly where the slice keeps no path into the cell. */
  lemma DirectExactly(store: Store, s: Value, j: nat)
    requires Typed(store) && s.Slice? && SliceElement(store, s, j).Some?
    ensures DirectElement(store, s.location, s.base, j) == SliceElement(store, s, j) <==> s.location.Ticket? || s.selectors == []
  {
    if s.location.Ticket? || s.selectors == [] {
      DirectFollows(store, s, j);
    } else {
      var cell := store.cells[s.location.cell];
      var backing := Walk(cell, s.selectors, s.indexes, Stored).selected;
      PartIsShallower(backing, s.base + j, PartCount(backing));
      if cell.Array? && s.base + j < |cell.elements| {
        var step := Step(cell, s.selectors[0], First(s.indexes), Stored);
        PathsDescend(step.value, s.selectors[1..], Rest(s.indexes));
        var t :| HasType(cell, t);
        TypeFixesDepth(cell.elements[s.base + j], cell.elements[step.index], t.element);
      }
    }
  }

  /** Somewhere along the path the walk goes through a slice that keeps a path into its cell. */
  predicate ThroughStoredPath(root: Value, selectors: seq<Selector>, captured: seq<nat>, store: Store)
    decreases |selectors|
  {
    && selectors != []
    && ((selectors[0].SliceSelector? && root.Slice? && root.location.Cell? && root.selectors != [])
        || (var step := Step(root, selectors[0], First(captured), Live(store));
            step.At? && ThroughStoredPath(step.value, selectors[1..], Rest(captured), store)))
  }

  lemma StepFollows(root: Value, selector: Selector, captured: Option<nat>, store: Store)
    requires selector.SliceSelector? && root.Slice? ==> root.location.Ticket? || root.selectors == []
    ensures ReadStep(root, selector, captured, store) == Step(root, selector, captured, Live(store))
  {
    if selector.SliceSelector? && root.Slice? {
      var index := if captured.Some? then Some(captured.value as int) else ReadIndex(Live(store), selector.local);
      if index.Some? { DirectFollows(store, root, index.value); }
    }
  }

  lemma {:induction false} ReadFollows(root: Value, selectors: seq<Selector>, captured: seq<nat>, store: Store)
    requires !ThroughStoredPath(root, selectors, captured, store)
    ensures Read(root, selectors, captured, store) == Followed(Walk(root, selectors, captured, Live(store)))
    decreases |selectors|
  {
    if selectors != [] {
      var step := Step(root, selectors[0], First(captured), Live(store));
      StepFollows(root, selectors[0], First(captured), store);
      if step.At? { ReadFollows(step.value, selectors[1..], Rest(captured), store); }
    }
  }

  /** A read through such a slice leaves the walk there, at some prefix of the path. */
  lemma {:induction false} ReadStrays(root: Value, selectors: seq<Selector>, captured: seq<nat>, store: Store) returns (n: nat)
    requires Typed(store) && Walk(root, selectors, captured, Live(store)).Resolved? && ThroughStoredPath(root, selectors, captured, store)
    ensures n <= |selectors|
    ensures Read(root, selectors[..n], captured, store) != Followed(Walk(root, selectors[..n], captured, Live(store)))
    decreases |selectors|
  {
    var step := Step(root, selectors[0], First(captured), Live(store));
    if selectors[0].SliceSelector? && root.Slice? && root.location.Cell? && root.selectors != [] {
      n := 1;
      DirectExactly(store, root, step.index);
      assert selectors[..1][0] == selectors[0] && selectors[..1][1..] == [];
    } else {
      StepFollows(root, selectors[0], First(captured), store);
      n := ReadStrays(step.value, selectors[1..], Rest(captured), store);
      n := n + 1;
      assert selectors[..n][0] == selectors[0] && selectors[..n][1..] == selectors[1..][..n - 1];
    }
  }

  /**
   A read follows the walk that checks and writes use, at every step, exactly when the path goes through no slice
   that keeps a path into its cell.
   */
  lemma ReadsFollowExactly(root: Value, selectors: seq<Selector>, captured: seq<nat>, store: Store)
    requires Typed(store) && Walk(root, selectors, captured, Live(store)).Resolved?
    ensures (forall n :: 0 <= n <= |selectors| ==>
               Read(root, selectors[..n], captured, store) == Followed(Walk(root, selectors[..n], captured, Live(store))))
            <==> !ThroughStoredPath(root, selectors, captured, store)
  {
    if ThroughStoredPath(root, selectors, captured, store) {
      var n := ReadStrays(root, selectors, captured, store);
    } else {
      forall n | 0 <= n <= |selectors|
        ensures Read(root, selectors[..n], captured, store) == Followed(Walk(root, selectors[..n], captured, Live(store)))
      {
        PrefixAvoidsStored(root, selectors, n, captured, store);
        ReadFollows(root, selectors[..n], captured, store);
      }
    }
  }

  lemma {:induction false} PrefixAvoidsStored(root: Value, selectors: seq<Selector>, n: nat, captured: seq<nat>, store: Store)
    requires n <= |selectors| && !ThroughStoredPath(root, selectors, captured, store)
    ensures !ThroughStoredPath(root, selectors[..n], captured, store)
    decreases n
  {
    if n > 0 {
      var step := Step(root, selectors[0], First(captured), Live(store));
      assert selectors[..n][0] == selectors[0] && selectors[..n][1..] == selectors[1..][..n - 1];
      if step.At? { PrefixAvoidsStored(step.value, selectors[1..], n - 1, Rest(captured), store); }
    }
  }

  // ---------------------------------------------------------------------------
  // When the value read is nevertheless the walk's
  // ---------------------------------------------------------------------------

  /** The selectors past the first slice on the way that keeps a path into its cell. */
  function PastStoredPath(root: Value, selectors: seq<Selector>, captured: seq<nat>, store: Store): seq<Selector>
    requires ThroughStoredPath(root, selectors, captured, store)
    decreases |selectors|
  {
    if selectors[0].SliceSelector? && root.Slice? && root.location.Cell? && root.selectors != [] then selectors[1..]
    else PastStoredPath(Step(root, selectors[0], First(captured), Live(store)).value, selectors[1..], Rest(captured), store)
  }

  predicate TakesField(selectors: seq<Selector>) {
    exists i :: 0 <= i < |selectors| && selectors[i].FieldSelector?
  }

  /** An array of one type is one deeper than each of its elements. */
  lemma {:induction false} ArrayDepth(v: Value, t: Type, i: nat, n: nat)
    requires HasType(v, t) && v.Array? && i < |v.elements| && 0 < n <= |v.elements|
    ensures Deepest(v, n) == Depth(v.elements[i])
  {
    TypeFixesDepth(v.elements[n - 1], v.elements[i], t.element);
    if n > 1 { ArrayDepth(v, t, i, n - 1); }
  }

  /** From values of different depth the same elements lead to different ones. */
  lemma {:induction false} DeeperStrays(walked: Value, w: Type, read: Value, r: Type, selectors: seq<Selector>, captured: seq<nat>, store: Store)
    requires HasType(walked, w) && HasType(read, r) && Depth(walked) < Depth(read) && !TakesField(selectors)
    requires Walk(walked, selectors, captured, Live(store)).Resolved?
    ensures Read(read, selectors, captured, store) != Followed(Walk(walked, selectors, captured, Live(store)))
    decreases |selectors|
  {
    if selectors != [] {
      var step := Step(walked, selectors[0], First(captured), Live(store));
      var other := ReadStep(read, selectors[0], First(captured), store);
      assert !selectors[0].FieldSelector?;
      if other.At? && selectors[0].ElementSelector? {
        assert step.value == walked.elements[step.index] && other.value == read.elements[other.index];
        ArrayDepth(walked, w, step.index, |walked.elements|);
        ArrayDepth(read, r, other.index, |read.elements|);
        assert forall i :: 0 <= i < |selectors[1..]| ==> selectors[1..][i] == selectors[i + 1];
        DeeperStrays(step.value, w.element, other.value, r.element, selectors[1..], Rest(captured), store);
      }
    }
  }

  lemma {:induction false} StoredElementTyped(root: Value, t: Type, selectors: seq<Selector>, captured: seq<nat>) returns (u: Type)
    requires HasType(root, t) && Walk(root, selectors, captured, Stored).Resolved? && Walk(root, selectors, captured, Stored).selected.Array?
    ensures HasType(Walk(root, selectors, captured, Stored).selected, u)
    decreases |selectors|
  {
    if selectors == [] {
      u := t;
    } else {
      var step := Step(root, selectors[0], First(captured), Stored);
      match selectors[0]
      case FieldSelector(id) =>
        var k := FieldIndex(root.fields, id);
        u := StoredElementTyped(step.value, t.members[k].type_, selectors[1..], Rest(captured));
      case ElementSelector(_, _) => u := StoredElementTyped(step.value, t.element, selectors[1..], Rest(captured));
      case SliceSelector(_) => BytesHoldNoArray(step.value, selectors[1..], Rest(captured));
    }
  }

  /** At a slice that keeps a path a read finds nothing, or a deeper value than the walk does. */
  lemma DirectIsDeeper(store: Store, s: Value, j: nat) returns (w: Type, r: Type)
    requires Typed(store) && s.Slice? && s.location.Cell? && s.selectors != []
    requires SliceElement(store, s, j).Some? && DirectElement(store, s.location, s.base, j).Some?
    ensures var walked, read := SliceElement(store, s, j).value, DirectElement(store, s.location, s.base, j).value;
            HasType(walked, w) && HasType(read, r) && Depth(walked) < Depth(read)
  {
    var cell := store.cells[s.location.cell];
    var t :| HasType(cell, t);
    var u := StoredElementTyped(cell, t, s.selectors, s.indexes);
    w, r := u.element, t.element;
    var backing := Walk(cell, s.selectors, s.indexes, Stored).selected;
    PartIsShallower(backing, s.base + j, PartCount(backing));
    var step := Step(cell, s.selectors[0], First(s.indexes), Stored);
    PathsDescend(step.value, s.selectors[1..], Rest(s.indexes));
    TypeFixesDepth(cell.elements[s.base + j], cell.elements[step.index], t.element);
  }

  /**
   What a read of a whole path comes to is what the walk does if the path goes through no slice that keeps a path into
   its cell, and is not if it goes through one and takes no field past it. Paths that take a field past one are the
   only ones on which the two can agree by chance.
   */
  lemma {:induction false} ReadsAgreeExactly(root: Value, selectors: seq<Selector>, captured: seq<nat>, store: Store)
    requires Typed(store) && Walk(root, selectors, captured, Live(store)).Resolved?
    ensures !ThroughStoredPath(root, selectors, captured, store) ==>
      Read(root, selectors, captured, store) == Followed(Walk(root, selectors, captured, Live(store)))
    ensures ThroughStoredPath(root, selectors, captured, store) && !TakesField(PastStoredPath(root, selectors, captured, store)) ==>
      Read(root, selectors, captured, store) != Followed(Walk(root, selectors, captured, Live(store)))
    decreases |selectors|
  {
    if !ThroughStoredPath(root, selectors, captured, store) {
      ReadFollows(root, selectors, captured, store);
    } else if !TakesField(PastStoredPath(root, selectors, captured, store)) {
      var step := Step(root, selectors[0], First(captured), Live(store));
      if selectors[0].SliceSelector? && root.Slice? && root.location.Cell? && root.selectors != [] {
        var read := ReadStep(root, selectors[0], First(captured), store);
        if read.At? {
          var w, r := DirectIsDeeper(store, root, step.index);
          DeeperStrays(step.value, w, read.value, r, selectors[1..], Rest(captured), store);
        }
      } else {
        StepFollows(root, selectors[0], First(captured), store);
        ReadsAgreeExactly(step.value, selectors[1..], Rest(captured), store);
      }
    }
  }

  const NEXT := FieldId(0, 0, 0)
  const MARK := FieldId(0, 0, 1)

  /** One struct at two instantiations: an array of it inside it, and the same mark on both. */
  const INNER := Aggregate([Field(NEXT, Plain(0)), Field(MARK, Plain(7))])
  const OUTER := Aggregate([Field(NEXT, Array([INNER])), Field(MARK, Plain(7))])
  const NESTED := Store(map[], map[0 := Array([OUTER])], map[])
  const INNERS := Slice(Cell(0), 0, 1, [ElementSelector(Proven(0), 1), FieldSelector(NEXT)], [0, 0])

  /** The walk takes the mark of the inner struct and the read that of the outer one, and here they are alike. */
  lemma ReadsCanAgreeByChance()
    ensures ThroughStoredPath(INNERS, [SliceSelector(0), FieldSelector(MARK)], [0, 1], NESTED)
    ensures Followed(Walk(INNERS, [SliceSelector(0), FieldSelector(MARK)], [0, 1], Live(NESTED))) == Found(Plain(7))
    ensures Read(INNERS, [SliceSelector(0), FieldSelector(MARK)], [0, 1], NESTED) == Found(Plain(7))
  {
    var cell, access := NESTED.cells[0], Live(NESTED);
    var path := [SliceSelector(0), FieldSelector(MARK)];
    assert INNERS.selectors[1..] == [FieldSelector(NEXT)] && INNERS.indexes[1..] == [0] && [FieldSelector(NEXT)][1..] == [] && [0][1..] == [];
    assert Step(OUTER, FieldSelector(NEXT), Some(0), Stored) == At(Array([INNER]), 0);
    assert Walk(Array([INNER]), [], [], Stored) == Resolved(Array([INNER]), []);
    assert Walk(OUTER, [FieldSelector(NEXT)], [0], Stored) == Resolved(Array([INNER]), [0]);
    assert Step(cell, ElementSelector(Proven(0), 1), Some(0), Stored) == At(OUTER, 0);
    assert Walk(cell, INNERS.selectors, INNERS.indexes, Stored) == Resolved(Array([INNER]), [0, 0]);
    assert path[1..] == [FieldSelector(MARK)] && [0, 1][1..] == [1] && [FieldSelector(MARK)][1..] == [] && [1][1..] == [];
    assert INNER.fields[1..] == [INNER.fields[1]] && OUTER.fields[1..] == [OUTER.fields[1]];
    assert FindField(INNER.fields, MARK) == Some(Plain(7)) && FindField(OUTER.fields, MARK) == Some(Plain(7));
    assert Step(INNERS, SliceSelector(0), Some(0), access) == At(INNER, 0);
    assert Walk(Plain(7), [], [], access) == Resolved(Plain(7), []);
    assert Walk(INNER, [FieldSelector(MARK)], [1], access) == Resolved(Plain(7), [1]);
    assert ReadStep(INNERS, SliceSelector(0), Some(0), NESTED) == At(OUTER, 0);
    assert Read(OUTER, [FieldSelector(MARK)], [1], NESTED) == Found(Plain(7));
  }

  // ---------------------------------------------------------------------------
  // Borrowing an array place
  // ---------------------------------------------------------------------------

  /** The selectors a slice keeps as its own path into the cell it borrows from. */
  function OwnPath(selectors: seq<Selector>): (own: seq<Selector>)
    ensures (forall i :: 0 <= i < |selectors| ==> !selectors[i].SliceSelector?) ==> own == selectors
  {
    if selectors == [] then []
    else (if selectors[0].SliceSelector? then [] else [selectors[0]]) + OwnPath(selectors[1..])
  }

  /** The path kept in a borrow is that of the place without its slice steps. */
  lemma {:induction false} OwnPathMeans(selectors: seq<Selector>, last: Selector)
    ensures OwnPath([]) == []
    ensures OwnPath(selectors + [last]) == OwnPath(selectors) + if last.SliceSelector? then [] else [last]
    decreases |selectors|
  {
    if selectors == [] {
      assert ([] + [last])[1..] == [];
    } else {
      assert (selectors + [last])[1..] == selectors[1..] + [last];
      OwnPathMeans(selectors[1..], last);
    }
  }

  /** The slice a borrow of an array place makes, with the path of the place kept in it. */
  function BorrowArray(store: Store, cell: nat, selectors: seq<Selector>): Option<Value> {
    if cell !in store.cells then None
    else
      var r := Walk(store.cells[cell], selectors, [], Live(store));
      if !r.Resolved? || !r.selected.Array? then None
      else Some(Slice(Cell(cell), 0, |r.selected.elements|, OwnPath(selectors), r.indexes))
  }

  /** A path of fields and elements finds at its indexes, without consulting anything, what it found. */
  lemma {:induction false} PlainPathReplaysStored(root: Value, selectors: seq<Selector>, captured: seq<nat>, store: Store)
    requires Walk(root, selectors, captured, Live(store)).Resolved?
    requires forall i :: 0 <= i < |selectors| ==> !selectors[i].SliceSelector?
    ensures var r := Walk(root, selectors, captured, Live(store)); Walk(root, selectors, r.indexes, Stored) == r
    decreases |selectors|
  {
    if selectors != [] {
      var step := Step(root, selectors[0], First(captured), Live(store));
      PlainPathReplaysStored(step.value, selectors[1..], Rest(captured), store);
      var indexes := Walk(root, selectors, captured, Live(store)).indexes;
      assert indexes[0] == step.index && indexes[1..] == Walk(step.value, selectors[1..], Rest(captured), Live(store)).indexes;
    }
  }

  /** A resolved path through a slice starts at it: nothing owned holds one. */
  lemma {:induction false} OwnedPathsAreStored(root: Value, selectors: seq<Selector>, captured: seq<nat>, store: Store)
    requires Owned(root) && Walk(root, selectors, captured, Live(store)).Resolved?
    ensures forall i :: 0 <= i < |selectors| ==> !selectors[i].SliceSelector?
    decreases |selectors|
  {
    if selectors != [] {
      var step := Step(root, selectors[0], First(captured), Live(store));
      OwnedPathStays(root, [selectors[0]], captured, Live(store));
      assert Walk(root, [selectors[0]], captured, Live(store)) == Resolved(step.value, [step.index]) by {
        assert [selectors[0]][1..] == [] && Walk(step.value, [], Rest(captured), Live(store)) == Resolved(step.value, []);
      }
      OwnedPathsAreStored(step.value, selectors[1..], Rest(captured), store);
    }
  }

  /** The borrowed slice has the elements of the place exactly when the place is in the local itself, not behind a borrow it holds. */
  lemma BorrowedElementsExactly(store: Store, cell: nat, selectors: seq<Selector>, j: nat)
    requires Checked(store) && BorrowArray(store, cell, selectors).Some? && j < BorrowArray(store, cell, selectors).value.length
    ensures SliceElement(store, BorrowArray(store, cell, selectors).value, j)
            == Some(Walk(store.cells[cell], selectors, [], Live(store)).selected.elements[j])
            <==> Owned(store.cells[cell])
  {
    var root, s := store.cells[cell], BorrowArray(store, cell, selectors).value;
    if Owned(root) {
      OwnedPathsAreStored(root, selectors, [], store);
      PlainPathReplaysStored(root, selectors, [], store);
    } else {
      BorrowHoldsNoArray(root, s.selectors, s.indexes);
    }
  }

  /** `[[1, 2], [3, 4]]`, its first row, and the slice borrowed from that row. */
  const ROW := Array([Plain(1), Plain(2)])
  const MATRIX := Store(map[], map[0 := Array([ROW, Array([Plain(3), Plain(4)])])], map[])
  const FIRST_ROW := Slice(Cell(0), 0, 2, [ElementSelector(Proven(0), 2)], [0])

  /** Its first element is 1 to the walk, and the whole first row to a read. */
  lemma ReadSelectsARow()
    ensures BorrowArray(MATRIX, 0, [ElementSelector(Proven(0), 2)]) == Some(FIRST_ROW)
    ensures Followed(Walk(FIRST_ROW, [SliceSelector(0)], [0], Live(MATRIX))) == Found(Plain(1))
    ensures Read(FIRST_ROW, [SliceSelector(0)], [0], MATRIX) == Found(ROW)
  {
    var root := MATRIX.cells[0];
    assert Step(root, ElementSelector(Proven(0), 2), None, Live(MATRIX)) == At(ROW, 0);
    assert Walk(ROW, [], [], Live(MATRIX)) == Resolved(ROW, []) && Walk(ROW, [], [], Stored) == Resolved(ROW, []);
    assert [ElementSelector(Proven(0), 2)][1..] == [] && [0][1..] == [];
    assert Walk(root, [ElementSelector(Proven(0), 2)], [0], Stored) == Resolved(ROW, [0]);
    assert Step(FIRST_ROW, SliceSelector(0), Some(0), Live(MATRIX)) == At(Plain(1), 0);
    assert [SliceSelector(0)][1..] == [] && Walk(Plain(1), [], [], Live(MATRIX)) == Resolved(Plain(1), []);
  }
}
