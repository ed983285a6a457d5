/** Walking a place as the evaluator does: one loop that narrows the selected value and collects indexes. */
module PlaceWalk {
  import opened Wrappers
  import opened Place

  ghost function After(indexes: seq<nat>, r: WalkResult): WalkResult {
    if r.Resolved? then Resolved(r.selected, indexes + r.indexes) else r
  }

  function Drop(captured: seq<nat>, i: nat): seq<nat> {
    if i <= |captured| then captured[i..] else []
  }

  lemma DropNext(captured: seq<nat>, i: nat)
    ensures Rest(Drop(captured, i)) == Drop(captured, i + 1)
    ensures First(Drop(captured, i)) == if i < |captured| then Some(captured[i]) else None
  {
  }

  lemma AfterStep(indexes: seq<nat>, value: Value, selectors: seq<Selector>, captured: seq<nat>, access: Access)
    requires selectors != [] && Step(value, selectors[0], First(captured), access).At?
    ensures var step := Step(value, selectors[0], First(captured), access);
            After(indexes, Walk(value, selectors, captured, access))
            == After(indexes + [step.index], Walk(step.value, selectors[1..], Rest(captured), access))
  {
    var step := Step(value, selectors[0], First(captured), access);
    var deeper := Walk(step.value, selectors[1..], Rest(captured), access);
    if deeper.Resolved? { assert indexes + ([step.index] + deeper.indexes) == (indexes + [step.index]) + deeper.indexes; }
  }

  method WalkPlace(root: Value, selectors: seq<Selector>, captured: seq<nat>, access: Access) returns (r: WalkResult)
    ensures r == Walk(root, selectors, captured, access)
  {
    var selected, indexes := root, [];
    assert After([], Walk(root, selectors, captured, access)) == Walk(root, selectors, captured, access) by {
      var whole := Walk(root, selectors, captured, access);
      if whole.Resolved? { assert [] + whole.indexes == whole.indexes; }
    }
    for i := 0 to |selectors|
      invariant Walk(root, selectors, captured, access)
                == After(indexes, Walk(selected, selectors[i..], Drop(captured, i), access))
    {
      DropNext(captured, i);
      assert selectors[i..][1..] == selectors[i + 1..];
      var step := Step(selected, selectors[i], if i < |captured| then Some(captured[i]) else None, access);
      match step
      case Broken => return Fault;
      case Outside(index, length) => return OutOfBounds(index, length);
      case At(value, index) =>
        AfterStep(indexes, selected, selectors[i..], Drop(captured, i), access);
        selected, indexes := value, indexes + [index];
    }
    return Resolved(selected, indexes);
  }
}
