/**
 Rows are canonical: under a merge that is associative, commutative and idempotent a row depends only
 on which members it was made from, union is a semilattice, and difference distributes over it.
 */
module RowLaws {
  import opened Wrappers
  import opened FiniteRow

  // ---------------------------------------------------------------------------
  // Text order
  // ---------------------------------------------------------------------------

  lemma {:induction false} BelowTransitive(a: string, b: string, c: string)
    requires Below(a, b) && Below(b, c)
    ensures Below(a, c)
    decreases |a|
  {
    if a != "" && a[0] == b[0] && b[0] == c[0] { BelowTransitive(a[1..], b[1..], c[1..]); }
  }

  lemma {:induction false} BelowTotal(a: string, b: string)
    ensures a == b || Below(a, b) || Below(b, a)
    ensures !(Below(a, b) && Below(b, a)) && !Below(a, a)
    decreases |a|
  {
    if a != "" {
      BelowTotal(a[1..], a[1..]);
      if b != "" && a[0] == b[0] {
        BelowTotal(a[1..], b[1..]);
        assert a == [a[0]] + a[1..] && b == [b[0]] + b[1..];
      }
    }
  }

  // ---------------------------------------------------------------------------
  // A sorted row is its lookup
  // ---------------------------------------------------------------------------

  lemma {:induction false} LookupFinds<M(!new)>(p: Policy<M>, row: Row<M>, i: nat)
    requires Sorted(p, row) && i < |row|
    ensures Lookup(p, row, p.collisionKey(row[i])) == Some(row[i])
  {
    if i > 0 {
      BelowTotal(p.collisionKey(row[0]), p.collisionKey(row[i]));
      SortedTail(p, row);
      LookupFinds(p, row[1..], i - 1);
    }
  }

  lemma SortedTail<M(!new)>(p: Policy<M>, row: Row<M>)
    requires Sorted(p, row) && row != []
    ensures Sorted(p, row[1..])
  {
    forall i, j | 0 <= i < j < |row[1..]| ensures Below(p.collisionKey(row[1..][i]), p.collisionKey(row[1..][j])) {
      assert row[1..][i] == row[i + 1] && row[1..][j] == row[j + 1];
    }
  }

  lemma {:induction false} LookupIn<M(!new)>(p: Policy<M>, row: Row<M>, key: string) returns (i: nat)
    requires Lookup(p, row, key).Some?
    ensures i < |row| && row[i] == Lookup(p, row, key).value && p.collisionKey(row[i]) == key
  {
    i := 0;
    if p.collisionKey(row[0]) != key {
      i := LookupIn(p, row[1..], key);
      i := i + 1;
    }
  }

  /** Nothing below the head of a sorted row is in it. */
  lemma {:induction false} LookupBelowHead<M(!new)>(p: Policy<M>, row: Row<M>, key: string)
    requires Sorted(p, row) && (row != [] ==> Below(key, p.collisionKey(row[0])))
    ensures Lookup(p, row, key) == None
  {
    if Lookup(p, row, key).Some? {
      var i := LookupIn(p, row, key);
      BelowTotal(key, key);
      if i > 0 { BelowTransitive(key, p.collisionKey(row[0]), key); }
    }
  }

  ghost predicate SameLookup<M(!new)>(p: Policy<M>, x: Row<M>, y: Row<M>) {
    forall key :: Lookup(p, x, key) == Lookup(p, y, key)
  }

  /** Two sorted rows with the same members at every key are the same row. */
  lemma {:induction false} SortedIsCanonical<M(!new)>(p: Policy<M>, x: Row<M>, y: Row<M>)
    requires Sorted(p, x) && Sorted(p, y) && SameLookup(p, x, y)
    ensures x == y
    decreases |x|
  {
    if x == [] {
      if y != [] { LookupFinds(p, y, 0); }
    } else {
      LookupFinds(p, x, 0);
      assert Lookup(p, y, p.collisionKey(x[0])).Some?;
      HeadsAgree(p, x, y);
      SortedTail(p, x);
      SortedTail(p, y);
      forall key ensures Lookup(p, x[1..], key) == Lookup(p, y[1..], key) {
        assert Lookup(p, x, key) == Lookup(p, y, key);
        if key == p.collisionKey(x[0]) {
          LookupPast(p, x);
          LookupPast(p, y);
        }
      }
      SortedIsCanonical(p, x[1..], y[1..]);
      assert x == [x[0]] + x[1..] && y == [y[0]] + y[1..];
    }
  }

  lemma LookupPast<M(!new)>(p: Policy<M>, row: Row<M>)
    requires Sorted(p, row) && row != []
    ensures Lookup(p, row[1..], p.collisionKey(row[0])) == None
  {
    SortedTail(p, row);
    LookupBelowHead(p, row[1..], p.collisionKey(row[0]));
  }

  lemma HeadsAgree<M(!new)>(p: Policy<M>, x: Row<M>, y: Row<M>)
    requires Sorted(p, x) && Sorted(p, y) && x != [] && y != [] && SameLookup(p, x, y)
    ensures x[0] == y[0]
  {
    var a, b := p.collisionKey(x[0]), p.collisionKey(y[0]);
    BelowTotal(a, b);
    LookupFinds(p, x, 0);
    LookupFinds(p, y, 0);
    assert Lookup(p, y, a) == Some(x[0]) && Lookup(p, x, b) == Some(y[0]);
    if Below(a, b) { LookupBelowHead(p, y, a); }
    if Below(b, a) { LookupBelowHead(p, x, b); }
  }

  // ---------------------------------------------------------------------------
  // Making a row
  // ---------------------------------------------------------------------------

  /** Members that collide merge to a member of the same key. */
  ghost predicate KeepsKey<M(!new)>(p: Policy<M>) {
    forall x, y :: p.collisionKey(x) == p.collisionKey(y) ==> p.collisionKey(p.merge(x, y)) == p.collisionKey(x)
  }

  lemma {:induction false} InsertLookup<M(!new)>(p: Policy<M>, row: Row<M>, m: M, key: string)
    requires KeepsKey(p) && Sorted(p, row)
    ensures Lookup(p, Insert(p, row, m), key)
            == if p.collisionKey(m) != key then Lookup(p, row, key)
               else if Lookup(p, row, key).None? then Some(m)
               else Some(p.merge(Lookup(p, row, key).value, m))
  {
    if row != [] && p.collisionKey(row[0]) != p.collisionKey(m) {
      SortedTail(p, row);
      if Below(p.collisionKey(m), p.collisionKey(row[0])) {
        LookupBelowHead(p, row, p.collisionKey(m));
      } else {
        InsertLookup(p, row[1..], m, key);
      }
    }
  }

  lemma {:induction false} InsertSorted<M(!new)>(p: Policy<M>, row: Row<M>, m: M)
    requires KeepsKey(p) && Sorted(p, row)
    ensures Sorted(p, Insert(p, row, m))
    ensures forall i :: 0 <= i < |Insert(p, row, m)| ==>
      p.collisionKey(Insert(p, row, m)[i]) == p.collisionKey(m)
      || exists j :: 0 <= j < |row| && p.collisionKey(row[j]) == p.collisionKey(Insert(p, row, m)[i])
  {
    if row != [] {
      var a, b := p.collisionKey(row[0]), p.collisionKey(m);
      SortedTail(p, row);
      BelowTotal(a, b);
      if a != b && !Below(b, a) {
        InsertSorted(p, row[1..], m);
        HeadStaysFirst(p, row, m);
      } else if Below(b, a) {
        forall j | 0 <= j < |row| ensures Below(b, p.collisionKey(row[j])) {
          if j > 0 { BelowTransitive(b, a, p.collisionKey(row[j])); }
        }
      }
    }
  }

  lemma HeadStaysFirst<M(!new)>(p: Policy<M>, row: Row<M>, m: M)
    requires Sorted(p, row) && row != [] && Below(p.collisionKey(row[0]), p.collisionKey(m))
    requires Sorted(p, Insert(p, row[1..], m))
    requires forall i :: 0 <= i < |Insert(p, row[1..], m)| ==>
      p.collisionKey(Insert(p, row[1..], m)[i]) == p.collisionKey(m)
      || exists j :: 0 <= j < |row[1..]| && p.collisionKey(row[1..][j]) == p.collisionKey(Insert(p, row[1..], m)[i])
    ensures Sorted(p, [row[0]] + Insert(p, row[1..], m))
    ensures forall i :: 0 <= i < |Insert(p, row[1..], m)| ==>
      p.collisionKey(Insert(p, row[1..], m)[i]) == p.collisionKey(m)
      || exists j :: 0 <= j < |row| && p.collisionKey(row[j]) == p.collisionKey(Insert(p, row[1..], m)[i])
  {
    var rest := Insert(p, row[1..], m);
    forall i | 0 <= i < |rest|
      ensures Below(p.collisionKey(row[0]), p.collisionKey(rest[i]))
      ensures p.collisionKey(rest[i]) == p.collisionKey(m) || exists j :: 0 <= j < |row| && p.collisionKey(row[j]) == p.collisionKey(rest[i])
    {
      if p.collisionKey(rest[i]) != p.collisionKey(m) {
        var j :| 0 <= j < |row[1..]| && p.collisionKey(row[1..][j]) == p.collisionKey(rest[i]);
        assert row[1..][j] == row[j + 1];
      }
    }
  }

  /** A made row is sorted and holds at each key the merge of the members with that key. */
  lemma {:induction false} MakeHolds<M(!new)>(p: Policy<M>, members: seq<M>)
    requires KeepsKey(p)
    ensures Sorted(p, Make(p, members))
    ensures forall key :: Lookup(p, Make(p, members), key) == Folded(p, members, key)
  {
    if members != [] {
      var n := |members| - 1;
      MakeHolds(p, members[..n]);
      InsertSorted(p, Make(p, members[..n]), members[n]);
      forall key ensures Lookup(p, Make(p, members), key) == Folded(p, members, key) {
        InsertLookup(p, Make(p, members[..n]), members[n], key);
      }
    }
  }

  // ---------------------------------------------------------------------------
  // A semilattice merge
  // ---------------------------------------------------------------------------

  /** Merging collisions is associative, commutative and idempotent. */
  ghost predicate Semilattice<M(!new)>(p: Policy<M>) {
    && KeepsKey(p)
    && (forall x :: p.merge(x, x) == x)
    && (forall x, y :: p.collisionKey(x) == p.collisionKey(y) ==> p.merge(x, y) == p.merge(y, x))
    && (forall x, y, z :: p.collisionKey(x) == p.collisionKey(y) && p.collisionKey(y) == p.collisionKey(z) ==>
          p.merge(p.merge(x, y), z) == p.merge(x, p.merge(y, z)))
  }

  function Join<M(!new)>(p: Policy<M>, x: Option<M>, y: Option<M>): Option<M> {
    if x.None? then y else if y.None? then x else Some(p.merge(x.value, y.value))
  }

  ghost predicate At<M(!new)>(p: Policy<M>, x: Option<M>, key: string) {
    x.Some? ==> p.collisionKey(x.value) == key
  }

  lemma JoinLaws<M(!new)>(p: Policy<M>, x: Option<M>, y: Option<M>, z: Option<M>, key: string)
    requires Semilattice(p) && At(p, x, key) && At(p, y, key) && At(p, z, key)
    ensures Join(p, Join(p, x, y), z) == Join(p, x, Join(p, y, z))
    ensures Join(p, x, y) == Join(p, y, x) && Join(p, x, x) == x && At(p, Join(p, x, y), key)
  {
  }

  lemma {:induction false} FoldedAt<M(!new)>(p: Policy<M>, members: seq<M>, key: string)
    requires KeepsKey(p)
    ensures At(p, Folded(p, members, key), key)
  {
    if members != [] { FoldedAt(p, members[..|members| - 1], key); }
  }

  /** Folding a concatenation joins the two folds. */
  lemma {:induction false} FoldedConcat<M(!new)>(p: Policy<M>, a: seq<M>, b: seq<M>, key: string)
    requires Semilattice(p)
    ensures Folded(p, a + b, key) == Join(p, Folded(p, a, key), Folded(p, b, key))
    decreases |b|
  {
    FoldedAt(p, a, key);
    if b == [] {
      assert a + b == a;
    } else {
      var front, m := b[..|b| - 1], b[|b| - 1];
      assert (a + b)[..|a + b| - 1] == a + front;
      FoldedConcat(p, a, front, key);
      FoldedAt(p, front, key);
      if p.collisionKey(m) == key { JoinLaws(p, Folded(p, a, key), Folded(p, front, key), Some(m), key); }
    }
  }

  /** A member is absorbed by the fold it is in. */
  lemma {:induction false} FoldedAbsorbs<M(!new)>(p: Policy<M>, members: seq<M>, m: M)
    requires Semilattice(p) && m in members
    ensures Join(p, Folded(p, members, p.collisionKey(m)), Some(m)) == Folded(p, members, p.collisionKey(m))
  {
    var key, front, last := p.collisionKey(m), members[..|members| - 1], members[|members| - 1];
    FoldedAt(p, front, key);
    if last == m {
      JoinLaws(p, Folded(p, front, key), Some(m), Some(m), key);
    } else {
      FoldedAbsorbs(p, front, m);
      if p.collisionKey(last) == key {
        JoinLaws(p, Folded(p, front, key), Some(last), Some(m), key);
        JoinLaws(p, Folded(p, front, key), Some(m), Some(last), key);
        JoinLaws(p, Some(last), Some(m), None, key);
      }
    }
  }

  /** So is everything folded from its members. */
  lemma {:induction false} FoldedAbsorbsAll<M(!new)>(p: Policy<M>, a: seq<M>, b: seq<M>, key: string)
    requires Semilattice(p) && forall m :: m in b ==> m in a
    ensures Join(p, Folded(p, a, key), Folded(p, b, key)) == Folded(p, a, key)
    decreases |b|
  {
    FoldedAt(p, a, key);
    if b != [] {
      var front, m := b[..|b| - 1], b[|b| - 1];
      FoldedAbsorbsAll(p, a, front, key);
      FoldedAt(p, front, key);
      if p.collisionKey(m) == key {
        FoldedAbsorbs(p, a, m);
        JoinLaws(p, Folded(p, a, key), Folded(p, front, key), Some(m), key);
      }
    }
  }

  ghost predicate SameMembers<M(!new)>(a: seq<M>, b: seq<M>) {
    forall m :: m in a <==> m in b
  }

  /** A row depends only on which members it is made from, not on their order or repetition. */
  lemma MakeDependsOnlyOnMembers<M(!new)>(p: Policy<M>, a: seq<M>, b: seq<M>)
    requires Semilattice(p) && SameMembers(a, b)
    ensures Make(p, a) == Make(p, b)
  {
    MakeHolds(p, a);
    MakeHolds(p, b);
    forall key ensures Folded(p, a, key) == Folded(p, b, key) {
      FoldedAt(p, a, key);
      FoldedAt(p, b, key);
      FoldedAbsorbsAll(p, a, b, key);
      FoldedAbsorbsAll(p, b, a, key);
      JoinLaws(p, Folded(p, a, key), Folded(p, b, key), None, key);
    }
    SortedIsCanonical(p, Make(p, a), Make(p, b));
  }

  /** Two lists that fold alike at every key make the same row. */
  lemma SameFoldsSameRow<M(!new)>(p: Policy<M>, a: seq<M>, b: seq<M>)
    requires KeepsKey(p) && forall key :: Folded(p, a, key) == Folded(p, b, key)
    ensures Make(p, a) == Make(p, b)
  {
    MakeHolds(p, a);
    MakeHolds(p, b);
    SortedIsCanonical(p, Make(p, a), Make(p, b));
  }

  /** In a sorted row each key has one member, so folding is looking up. */
  lemma {:induction false} FoldedOfSorted<M(!new)>(p: Policy<M>, row: Row<M>, key: string)
    requires Semilattice(p) && Sorted(p, row)
    ensures Folded(p, row, key) == Lookup(p, row, key)
    decreases |row|
  {
    if row != [] {
      SortedTail(p, row);
      FoldedOfSorted(p, row[1..], key);
      assert row == [row[0]] + row[1..];
      FoldedConcat(p, [row[0]], row[1..], key);
      assert [row[0]][..0] == [];
      if key == p.collisionKey(row[0]) { LookupPast(p, row); }
    }
  }

  /** Making a row again changes nothing. */
  lemma MakeIsIdempotent<M(!new)>(p: Policy<M>, row: Row<M>)
    requires Semilattice(p) && Sorted(p, row)
    ensures Make(p, row) == row
  {
    MakeHolds(p, row);
    forall key ensures Folded(p, row, key) == Lookup(p, row, key) {
      FoldedOfSorted(p, row, key);
    }
    SortedIsCanonical(p, Make(p, row), row);
  }

  /** Making part of a list first makes no difference. */
  lemma MakeAbsorbsMake<M(!new)>(p: Policy<M>, a: seq<M>, b: seq<M>)
    requires Semilattice(p)
    ensures Make(p, Make(p, a) + b) == Make(p, a + b) && Make(p, a + Make(p, b)) == Make(p, a + b)
  {
    MakeHolds(p, a);
    MakeHolds(p, b);
    forall key
      ensures Folded(p, Make(p, a) + b, key) == Folded(p, a + b, key) && Folded(p, a + Make(p, b), key) == Folded(p, a + b, key)
    {
      FoldedConcat(p, Make(p, a), b, key);
      FoldedConcat(p, a, Make(p, b), key);
      FoldedConcat(p, a, b, key);
      FoldedOfSorted(p, Make(p, a), key);
      FoldedOfSorted(p, Make(p, b), key);
    }
    SameFoldsSameRow(p, Make(p, a) + b, a + b);
    SameFoldsSameRow(p, a + Make(p, b), a + b);
  }

  lemma ConcatAssociates<M>(a: seq<M>, b: seq<M>, c: seq<M>)
    ensures (a + b) + c == a + (b + c)
  {
  }

  lemma UnionAssociates<M(!new)>(p: Policy<M>, a: Row<M>, b: Row<M>, c: Row<M>)
    requires Semilattice(p)
    ensures Union(p, Union(p, a, b), c) == Union(p, a, Union(p, b, c))
  {
    hide Make, Semilattice;
    ConcatAssociates(a, b, c);
    MakeAbsorbsMake(p, a + b, c);
    MakeAbsorbsMake(p, a, b + c);
  }

  lemma UnionCommutes<M(!new)>(p: Policy<M>, a: Row<M>, b: Row<M>)
    requires Semilattice(p)
    ensures Union(p, a, b) == Union(p, b, a)
  {
    MakeDependsOnlyOnMembers(p, a + b, b + a);
  }

  /** Union of rows is associative, commutative and idempotent, and always sorted. */
  lemma UnionIsSemilattice<M(!new)>(p: Policy<M>, a: Row<M>, b: Row<M>, c: Row<M>)
    requires Semilattice(p) && Sorted(p, a)
    ensures Union(p, Union(p, a, b), c) == Union(p, a, Union(p, b, c))
    ensures Union(p, a, b) == Union(p, b, a) && Union(p, a, a) == a
    ensures Sorted(p, Union(p, a, b))
  {
    UnionAssociates(p, a, b, c);
    UnionCommutes(p, a, b);
    MakeDependsOnlyOnMembers(p, a + a, a);
    MakeIsIdempotent(p, a);
    MakeHolds(p, a + b);
  }

  // ---------------------------------------------------------------------------
  // Difference and intersection
  // ---------------------------------------------------------------------------

  /** Members of one collision key are removed together or not at all. */
  ghost predicate DifferenceByCollision<M(!new)>(p: Policy<M>) {
    forall x, y :: p.collisionKey(x) == p.collisionKey(y) ==> p.differenceKey(x) == p.differenceKey(y)
  }

  ghost predicate ByCollision<M(!new)>(p: Policy<M>, keep: M -> bool) {
    forall x, y :: p.collisionKey(x) == p.collisionKey(y) ==> keep(x) == keep(y)
  }

  lemma {:induction false} KeepConcat<M(!new)>(a: seq<M>, b: seq<M>, keep: M -> bool)
    ensures Keep(a + b, keep) == Keep(a, keep) + Keep(b, keep)
  {
    if a == [] {
      assert a + b == b;
    } else {
      assert (a + b)[1..] == a[1..] + b;
      KeepConcat(a[1..], b, keep);
    }
  }

  lemma FoldedSnoc<M(!new)>(p: Policy<M>, members: seq<M>, m: M, key: string)
    ensures Folded(p, members + [m], key)
            == if p.collisionKey(m) != key then Folded(p, members, key) else Join(p, Folded(p, members, key), Some(m))
  {
    assert (members + [m])[..|members|] == members;
  }

  function Kept<M(!new)>(whole: Option<M>, keep: M -> bool): Option<M> {
    if whole.Some? && !keep(whole.value) then None else whole
  }

  /** Filtering whole collision keys keeps or drops each fold entirely. */
  lemma {:induction false} FoldedKeep<M(!new)>(p: Policy<M>, members: seq<M>, keep: M -> bool, key: string)
    requires KeepsKey(p) && ByCollision(p, keep)
    ensures Folded(p, Keep(members, keep), key) == Kept(Folded(p, members, key), keep)
    decreases |members|
  {
    if members != [] {
      var front, m := members[..|members| - 1], members[|members| - 1];
      FoldedKeep(p, front, keep, key);
      FoldedAt(p, front, key);
      assert members == front + [m];
      KeepConcat(front, [m], keep);
      assert [m][1..] == [] && Keep([m], keep) == if keep(m) then [m] else [];
      FoldedSnoc(p, front, m, key);
      FoldedSnoc(p, Keep(front, keep), m, key);
      assert Keep(front, keep) + [] == Keep(front, keep);
      hide Folded, Keep;
      var whole := Folded(p, front, key);
      if p.collisionKey(m) == key && whole.Some? {
        assert keep(whole.value) == keep(m) == keep(p.merge(whole.value, m));
      }
    }
  }

  /** Filtering a made row is making the filtered list. */
  lemma KeepOfMake<M(!new)>(p: Policy<M>, members: seq<M>, keep: M -> bool)
    requires Semilattice(p) && ByCollision(p, keep)
    ensures Make(p, Keep(Make(p, members), keep)) == Make(p, Keep(members, keep))
  {
    MakeHolds(p, members);
    forall key ensures Folded(p, Keep(Make(p, members), keep), key) == Folded(p, Keep(members, keep), key) {
      FoldedKeep(p, Make(p, members), keep, key);
      FoldedKeep(p, members, keep, key);
      FoldedOfSorted(p, Make(p, members), key);
    }
    SameFoldsSameRow(p, Keep(Make(p, members), keep), Keep(members, keep));
  }

  /** Difference distributes over union when what it removes is decided by the collision key. */
  lemma DifferenceDistributes<M(!new)>(p: Policy<M>, a: Row<M>, b: Row<M>, c: Row<M>)
    requires Semilattice(p) && DifferenceByCollision(p)
    ensures Difference(p, Union(p, a, b), c) == Union(p, Difference(p, a, c), Difference(p, b, c))
  {
    var keep := m => !Selects(p, c, m);
    forall x, y | p.collisionKey(x) == p.collisionKey(y) ensures keep(x) == keep(y) {
      assert p.differenceKey(x) == p.differenceKey(y);
    }
    KeepOfMake(p, a + b, keep);
    KeepConcat(a, b, keep);
    MakeAbsorbsMake(p, Keep(a, keep), Keep(b, keep));
    MakeAbsorbsMake(p, Keep(a, keep), Make(p, Keep(b, keep)));
    assert Difference(p, Union(p, a, b), c) == Make(p, Keep(a, keep) + Keep(b, keep));
  }

  lemma MakeSmall<M(!new)>(p: Policy<M>, x: M, y: M)
    ensures Make(p, [x]) == [x] && Make(p, []) == []
    ensures Make(p, [x, y]) == Insert(p, [x], y)
  {
    assert [x][..0] == [] && [x, y][..1] == [x];
  }

  ghost predicate Distributes<M(!new)>(p: Policy<M>, a: Row<M>, b: Row<M>, c: Row<M>) {
    Difference(p, Union(p, a, b), c) == Union(p, Difference(p, a, c), Difference(p, b, c))
  }

  /** One member less a one-member row. */
  lemma DifferenceOfOne<M(!new)>(p: Policy<M>, x: M, y: M)
    ensures Difference(p, [x], [y]) == if p.differenceKey(x) == p.differenceKey(y) then [] else [x]
  {
    var keep := m => !Selects(p, [y], m);
    assert p.differenceKey([y][0]) == p.differenceKey(y) && [x][1..] == [];
    assert Keep([x], keep) == if p.differenceKey(x) == p.differenceKey(y) then [] else [x];
    MakeSmall(p, x, x);
  }

  lemma UnionOfOnes<M(!new)>(p: Policy<M>, x: M, y: M)
    requires p.collisionKey(x) == p.collisionKey(y)
    ensures Union(p, [x], [y]) == [p.merge(x, y)] && Union(p, [x], []) == [x] && Union(p, [], [y]) == [y]
  {
    MakeSmall(p, x, y);
    MakeSmall(p, y, y);
    assert [x] + [y] == [x, y] && [] + [y] == [y] && [x] + [] == [x];
  }

  /**
   Of two colliding members taking either away before merging keeps the other, so if their removals differed
   the merge would have to be both.
   */
  lemma CollidingRemovalsAgree<M(!new)>(p: Policy<M>, x: M, y: M)
    requires p.collisionKey(x) == p.collisionKey(y) && Distributes(p, [x], [y], [x]) && Distributes(p, [x], [y], [y])
    ensures p.differenceKey(x) == p.differenceKey(y)
  {
    hide Difference, Union;
    var z := p.merge(x, y);
    UnionOfOnes(p, x, y);
    DifferenceOfOne(p, x, x);
    DifferenceOfOne(p, y, x);
    DifferenceOfOne(p, z, x);
    DifferenceOfOne(p, x, y);
    DifferenceOfOne(p, y, y);
    DifferenceOfOne(p, z, y);
  }

  /** Difference distributes over union exactly when what it removes is decided by the collision key. */
  lemma DifferenceDistributesExactly<M(!new)>(p: Policy<M>)
    requires Semilattice(p)
    ensures (forall a: Row<M>, b: Row<M>, c: Row<M> :: Distributes(p, a, b, c)) <==> DifferenceByCollision(p)
  {
    if DifferenceByCollision(p) {
      forall a: Row<M>, b: Row<M>, c: Row<M> ensures Distributes(p, a, b, c) {
        DifferenceDistributes(p, a, b, c);
      }
    } else {
      var x, y :| p.collisionKey(x) == p.collisionKey(y) && p.differenceKey(x) != p.differenceKey(y);
      if Distributes(p, [x], [y], [x]) && Distributes(p, [x], [y], [y]) { CollidingRemovalsAgree(p, x, y); }
    }
  }

  /** Numbers that all collide and merge to the larger. */
  function LargerWins(): Policy<int> {
    Policy((m: int) => "", (m: int) => if m == 1 then "1" else "2", (m: int) => if m == 1 then "1" else "2",
           (x: int, y: int) => if x < y then y else x)
  }

  /** A policy without it: merging hides a member that would have stayed. */
  lemma DifferenceNeedNotDistribute()
    ensures var p := LargerWins();
            Semilattice(p) && Difference(p, Union(p, [1], [2]), [2]) != Union(p, Difference(p, [1], [2]), Difference(p, [2], [2]))
  {
    var p := LargerWins();
    var keep := m => !Selects(p, [2], m);
    assert p.differenceKey([2][0]) == "2";
    assert keep(1) && !keep(2);
    assert [1][1..] == [] && [2][1..] == [];
    assert Keep([1], keep) == [1] && Keep([2], keep) == [];
    MakeSmall(p, 1, 2);
    MakeSmall(p, 2, 2);
    assert [1] + [2] == [1, 2] && Union(p, [1], [2]) == [2];
    assert [1] + [] == [1];
  }

  /** What is removed and what is shared make up the row again, when removal is by exact member. */
  lemma DifferenceAndIntersection<M(!new)>(p: Policy<M>, a: Row<M>, b: Row<M>)
    requires Semilattice(p) && Sorted(p, a) && p.differenceKey == p.memberKey
    ensures Union(p, Difference(p, a, b), Intersection(p, a, b)) == a
  {
    var outside, inside := Keep(a, m => !Selects(p, b, m)), Keep(a, m => Has(p, b, m));
    MakeAbsorbsMake(p, outside, inside);
    MakeAbsorbsMake(p, outside, Make(p, inside));
    MakeDependsOnlyOnMembers(p, outside + inside, a);
    MakeIsIdempotent(p, a);
  }

  // ---------------------------------------------------------------------------
  // Containment
  // ---------------------------------------------------------------------------

  lemma {:induction false} KeepAll<M(!new)>(members: seq<M>, keep: M -> bool)
    ensures |Keep(members, keep)| <= |members|
    ensures |Keep(members, keep)| == |members| <==> forall i :: 0 <= i < |members| ==> keep(members[i])
    ensures |Keep(members, keep)| == |members| ==> Keep(members, keep) == members
  {
    if members != [] {
      KeepAll(members[1..], keep);
      assert forall i :: 0 < i < |members| ==> members[i] == members[1..][i - 1];
      assert members == [members[0]] + members[1..];
    }
  }

  lemma {:induction false} KeepSorted<M(!new)>(p: Policy<M>, row: Row<M>, keep: M -> bool)
    requires Sorted(p, row)
    ensures Sorted(p, Keep(row, keep))
  {
    if row != [] {
      SortedTail(p, row);
      KeepSorted(p, row[1..], keep);
      var rest := Keep(row[1..], keep);
      forall i | 0 <= i < |rest| ensures Below(p.collisionKey(row[0]), p.collisionKey(rest[i])) {
        assert rest[i] in rest;
        var k :| 0 <= k < |row[1..]| && row[1..][k] == rest[i];
        assert row[k + 1] == rest[i];
      }
    }
  }

  /** A row is contained in another exactly when it is all of their intersection. */
  lemma SubsetIsIntersection<M(!new)>(p: Policy<M>, a: Row<M>, b: Row<M>)
    requires Semilattice(p) && Sorted(p, a)
    ensures IsSubset(p, a, b) <==> Intersection(p, a, b) == a
  {
    var keep := m => Has(p, b, m);
    KeepAll(a, keep);
    KeepSorted(p, a, keep);
    MakeIsIdempotent(p, Keep(a, keep));
    assert Intersection(p, a, b) == Keep(a, keep);
  }

  /** Rows contained in each other are the same row, where the exact identity tells members apart. */
  lemma SubsetsOfEachOther<M(!new)>(p: Policy<M>, a: Row<M>, b: Row<M>)
    requires Semilattice(p) && Sorted(p, a) && Sorted(p, b)
    requires forall x, y :: p.memberKey(x) == p.memberKey(y) ==> x == y
    ensures IsSubset(p, a, b) && IsSubset(p, b, a) <==> a == b
  {
    if IsSubset(p, a, b) && IsSubset(p, b, a) {
      forall m ensures m in a <==> m in b {
        if m in a { var i :| 0 <= i < |a| && a[i] == m; assert Has(p, b, a[i]); }
        if m in b { var i :| 0 <= i < |b| && b[i] == m; assert Has(p, a, b[i]); }
      }
      MakeDependsOnlyOnMembers(p, a, b);
      MakeIsIdempotent(p, a);
      MakeIsIdempotent(p, b);
    }
  }
}
