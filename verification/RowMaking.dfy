/** Making a row as the compiler does: one pass into a table of collision keys, then its values in key order. */
module RowMaking {
  import opened Wrappers
  import opened FiniteRow
  import opened RowLaws

  /** The table holds, at each key met so far, what folding the members gives. */
  ghost predicate Tabulates<M(!new)>(p: Policy<M>, table: map<string, M>, members: seq<M>) {
    forall key :: Folded(p, members, key) == if key in table then Some(table[key]) else None
  }

  /** A set of keys that is not empty has a least one. */
  lemma {:induction false} HasLeast(keys: set<string>) returns (least: string)
    requires keys != {}
    ensures least in keys && forall k :: k in keys ==> !Below(k, least)
    decreases |keys|
  {
    least :| least in keys;
    BelowTotal(least, least);
    var others := keys - {least};
    if others != {} {
      var next := HasLeast(others);
      BelowTotal(next, least);
      if Below(next, least) {
        least := next;
      } else {
        forall k | k in keys ensures !Below(k, least) {
          if k != least && Below(k, least) {
            BelowTotal(k, next);
            if Below(next, k) { BelowTransitive(next, k, least); }
          }
        }
      }
    }
  }

  /** The values of the listed keys. */
  ghost predicate Lists<M(!new)>(p: Policy<M>, table: map<string, M>, keys: set<string>, row: Row<M>) {
    && (forall i :: 0 <= i < |row| ==> p.collisionKey(row[i]) in table && p.collisionKey(row[i]) !in keys
                                       && row[i] == table[p.collisionKey(row[i])])
    && (forall k :: k in table && k !in keys ==> exists i :: 0 <= i < |row| && row[i] == table[k])
    && (forall i, k :: 0 <= i < |row| && k in keys ==> Below(p.collisionKey(row[i]), k))
  }

  lemma ListedIsFolded<M(!new)>(p: Policy<M>, table: map<string, M>, members: seq<M>, row: Row<M>)
    requires KeepsKey(p) && Tabulates(p, table, members) && Sorted(p, row) && Lists(p, table, {}, row)
    ensures row == Make(p, members)
  {
    MakeHolds(p, members);
    forall key ensures Lookup(p, row, key) == Folded(p, members, key) {
      FoldedAt(p, members, key);
      if key in table {
        var i :| 0 <= i < |row| && row[i] == table[key];
        LookupFinds(p, row, i);
      } else if Lookup(p, row, key).Some? {
        var i := LookupIn(p, row, key);
      }
    }
    SortedIsCanonical(p, row, Make(p, members));
  }

  lemma TabulatesNext<M(!new)>(p: Policy<M>, table: map<string, M>, members: seq<M>, m: M)
    requires KeepsKey(p) && Tabulates(p, table, members)
    ensures var key := p.collisionKey(m);
            Tabulates(p, table[key := if key in table then p.merge(table[key], m) else m], members + [m])
  {
  }

  lemma TabulatedKey<M(!new)>(p: Policy<M>, table: map<string, M>, members: seq<M>, key: string)
    requires KeepsKey(p) && Tabulates(p, table, members) && key in table
    ensures p.collisionKey(table[key]) == key
  {
    FoldedAt(p, members, key);
  }

  lemma ListsNext<M(!new)>(p: Policy<M>, table: map<string, M>, keys: set<string>, row: Row<M>, least: string)
    requires least in table && least !in keys && p.collisionKey(table[least]) == least
    requires Lists(p, table, keys + {least}, row) && Sorted(p, row) && forall k :: k in keys ==> Below(least, k)
    ensures Lists(p, table, keys, row + [table[least]]) && Sorted(p, row + [table[least]])
  {
    var next := row + [table[least]];
    forall k | k in table && k !in keys ensures exists i :: 0 <= i < |next| && next[i] == table[k] {
      if k == least {
        assert next[|row|] == table[k];
      } else {
        var i :| 0 <= i < |row| && row[i] == table[k];
        assert next[i] == table[k];
      }
    }
  }

  method Tabulate<M(!new)>(p: Policy<M>, members: seq<M>) returns (table: map<string, M>)
    requires KeepsKey(p)
    ensures Tabulates(p, table, members)
  {
    hide KeepsKey;
    table := map[];
    for i := 0 to |members|
      invariant Tabulates(p, table, members[..i])
    {
      TabulatesNext(p, table, members[..i], members[i]);
      assert members[..i] + [members[i]] == members[..i + 1];
      var key := p.collisionKey(members[i]);
      table := table[key := if key in table then p.merge(table[key], members[i]) else members[i]];
    }
    assert members[..|members|] == members;
  }

  /** The table's values in ascending key order. */
  method InKeyOrder<M(!new)>(p: Policy<M>, table: map<string, M>) returns (row: Row<M>)
    requires forall key :: key in table ==> p.collisionKey(table[key]) == key
    ensures Sorted(p, row) && Lists(p, table, {}, row)
  {
    row := [];
    var keys := table.Keys;
    while keys != {}
      invariant keys <= table.Keys && Sorted(p, row) && Lists(p, table, keys, row)
      decreases |keys|
    {
      ghost var _ := HasLeast(keys);
      var least :| least in keys && forall k :: k in keys ==> !Below(k, least);
      forall k | k in keys && k != least ensures Below(least, k) { BelowTotal(k, least); }
      assert keys - {least} + {least} == keys;
      ListsNext(p, table, keys - {least}, row, least);
      row := row + [table[least]];
      keys := keys - {least};
    }
  }

  method MakeRow<M(!new)>(p: Policy<M>, members: seq<M>) returns (row: Row<M>)
    requires KeepsKey(p)
    ensures row == Make(p, members)
    ensures Sorted(p, row)
  {
    var table := Tabulate(p, members);
    forall key | key in table ensures p.collisionKey(table[key]) == key { TabulatedKey(p, table, members, key); }
    row := InKeyOrder(p, table);
    ListedIsFolded(p, table, members, row);
  }
}
