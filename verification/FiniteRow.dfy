/**
 Finite rows: members normalized through a policy that merges collisions, in the order of their
 collision keys. A row is canonical, so equal contents are equal rows.
 */
module FiniteRow {
  import opened Wrappers

  /** Text order by character. */
  predicate Below(a: string, b: string)
    decreases |a|
  {
    if b == "" then false
    else if a == "" then true
    else if a[0] != b[0] then a[0] < b[0]
    else Below(a[1..], b[1..])
  }

  datatype Policy<!M> = Policy(collisionKey: M -> string, memberKey: M -> string, differenceKey: M -> string, merge: (M, M) -> M)

  type Row<M> = seq<M>

  /** Strictly ascending collision keys. */
  ghost predicate Sorted<M(!new)>(p: Policy<M>, row: Row<M>) {
    forall i, j :: 0 <= i < j < |row| ==> Below(p.collisionKey(row[i]), p.collisionKey(row[j]))
  }

  /** The members with one collision key, merged in order. */
  function Folded<M(!new)>(p: Policy<M>, members: seq<M>, key: string): Option<M> {
    if members == [] then None
    else
      var n := |members| - 1;
      var before := Folded(p, members[..n], key);
      if p.collisionKey(members[n]) != key then before
      else if before.None? then Some(members[n])
      else Some(p.merge(before.value, members[n]))
  }

  /** The row's member at a key. */
  function Lookup<M(!new)>(p: Policy<M>, row: Row<M>, key: string): Option<M> {
    if row == [] then None
    else if p.collisionKey(row[0]) == key then Some(row[0])
    else Lookup(p, row[1..], key)
  }

  /** Adds a member where its key belongs, merging it into the one already there. */
  function Insert<M(!new)>(p: Policy<M>, row: Row<M>, m: M): Row<M> {
    if row == [] then [m]
    else if p.collisionKey(row[0]) == p.collisionKey(m) then [p.merge(row[0], m)] + row[1..]
    else if Below(p.collisionKey(m), p.collisionKey(row[0])) then [m] + row
    else [row[0]] + Insert(p, row[1..], m)
  }

  function Make<M(!new)>(p: Policy<M>, members: seq<M>): Row<M> {
    if members == [] then [] else Insert(p, Make(p, members[..|members| - 1]), members[|members| - 1])
  }

  function Union<M(!new)>(p: Policy<M>, left: Row<M>, right: Row<M>): Row<M> {
    Make(p, left + right)
  }

  predicate Has<M(!new)>(p: Policy<M>, row: Row<M>, m: M) {
    exists i :: 0 <= i < |row| && p.memberKey(row[i]) == p.memberKey(m)
  }

  predicate IsSubset<M(!new)>(p: Policy<M>, selected: Row<M>, source: Row<M>) {
    forall i :: 0 <= i < |selected| ==> Has(p, source, selected[i])
  }

  function Keep<M(!new)>(members: seq<M>, keep: M -> bool): (r: seq<M>)
    ensures forall m :: m in r <==> m in members && keep(m)
  {
    if members == [] then []
    else (if keep(members[0]) then [members[0]] else []) + Keep(members[1..], keep)
  }

  function Intersection<M(!new)>(p: Policy<M>, left: Row<M>, right: Row<M>): Row<M> {
    Make(p, Keep(left, m => Has(p, right, m)))
  }

  predicate Selects<M(!new)>(p: Policy<M>, selected: Row<M>, m: M) {
    exists i :: 0 <= i < |selected| && p.differenceKey(selected[i]) == p.differenceKey(m)
  }

  function Difference<M(!new)>(p: Policy<M>, source: Row<M>, selected: Row<M>): Row<M> {
    Make(p, Keep(source, m => !Selects(p, selected, m)))
  }
}
