/**
 * `handleRemove` of DndTreeEditor.react.tsx: hand the id to the host's
 * `onRemove` when there is one, otherwise drop the record and every record
 * whose `isDescendant` walk up the parent links reaches it.
 */
module Removal {
  import opened Wrappers
  import opened Records
  import Ancestry

  /** The walk `isDescendant` makes from `id`, following the first record
      with each id, ends (at a missing record or a falsy `parent_id`) within
      `fuel` steps. */
  predicate ChainEnds(items: seq<Record>, id: string, fuel: nat)
    decreases fuel
  {
    match Find(items, id)
    case None => true
    case Some(r) => !Truthy(r.parentId) || (fuel > 0 && ChainEnds(items, r.parentId.value, fuel - 1))
  }

  /** No cycle of parent links: every record's walk ends within as many
      steps as there are records. On a chain that enters a cycle without
      meeting the target, `isDescendant` recurses without end. */
  predicate Acyclic(items: seq<Record>)
  {
    forall i | 0 <= i < |items| :: ChainEnds(items, items[i].id, |items|)
  }

  /** `isDescendant(id, ancestorId)`: whether `ancestorId` is met walking up
      the first-match parent links from `id`. */
  function IsDescendant(items: seq<Record>, id: string, ancestorId: string, fuel: nat): bool
    requires ChainEnds(items, id, fuel)
    decreases fuel
  {
    match Find(items, id)
    case None => false
    case Some(r) =>
      if !Truthy(r.parentId) then false
      else if r.parentId.value == ancestorId then true
      else IsDescendant(items, r.parentId.value, ancestorId, fuel - 1)
  }

  /** The filter predicate of the default removal. */
  predicate Kept(items: seq<Record>, target: string, r: Record)
    requires Acyclic(items)
    requires r in items
  {
    r.id != target && !IsDescendant(items, r.id, target, |items|)
  }

  /** `a` is `b` with some elements left out. */
  predicate IsSubsequence<T(==)>(a: seq<T>, b: seq<T>)
    decreases |b|
  {
    if a == [] then true
    else if b == [] then false
    else if a[0] == b[0] then IsSubsequence(a[1..], b[1..])
    else IsSubsequence(a, b[1..])
  }

  /** `rest.filter(item => Kept(item))`, for a part `rest` of `items`. */
  function FilterKept(items: seq<Record>, target: string, rest: seq<Record>): (r: seq<Record>)
    requires Acyclic(items)
    requires forall x | x in rest :: x in items
    ensures forall x :: multiset(r)[x] == if x in rest && Kept(items, target, x) then multiset(rest)[x] else 0
    ensures IsSubsequence(r, rest)
  {
    if rest == [] then []
    else
      var tail := FilterKept(items, target, rest[1..]);
      assert rest == [rest[0]] + rest[1..];
      if Kept(items, target, rest[0]) then
        [rest[0]] + tail
      else
        assert tail == [] || tail[0] != rest[0] by {
          if tail != [] {
            assert tail[0] in multiset(tail);
          }
        }
        tail
  }

  /** The default branch of `handleRemove`: the list without `target` and
      without every record that has `target` on its parent chain, in the
      original order. */
  function RemoveDefault(items: seq<Record>, target: string): (r: seq<Record>)
    requires Acyclic(items)
    ensures forall x :: multiset(r)[x] == if x in items && Kept(items, target, x) then multiset(items)[x] else 0
    ensures IsSubsequence(r, items)
  {
    FilterKept(items, target, items)
  }

  /** What `handleRemove` does: delegate to `onRemove`, or emit the
      filtered list. */
  datatype Removal = Delegated(id: string) | Emitted(items: seq<Record>)

  function HandleRemove(items: seq<Record>, target: string, hasOnRemove: bool): (r: Removal)
    requires hasOnRemove || Acyclic(items)
    ensures hasOnRemove <==> r == Delegated(target)
    ensures !hasOnRemove ==> r == Emitted(RemoveDefault(items, target))
  {
    if hasOnRemove then Delegated(target) else Emitted(RemoveDefault(items, target))
  }

  /** The parent the first record with `id` names, if there is one. */
  function FindParent(items: seq<Record>, id: string): Option<string>
  {
    match Find(items, id)
    case None => None
    case Some(r) => r.parentId
  }

  /** A parent map that gives every id the parent its first record names. */
  ghost predicate Agrees(items: seq<Record>, byId: map<string, Record>)
  {
    forall x :: Ancestry.ParentOf(byId, x) == FindParent(items, x)
  }

  /** When the parent map agrees with the first-match lookup,
      `isDescendant` answers exactly whether the target is among the ids the
      walk of `getAncestorIds` passes through. */
  lemma {:induction false} DescendantWalk(items: seq<Record>, byId: map<string, Record>, id: string, ancestorId: string, fuel: nat, guard: nat, limit: nat)
    requires Agrees(items, byId)
    requires ChainEnds(items, id, fuel)
    requires guard <= limit && fuel + guard <= limit
    ensures IsDescendant(items, id, ancestorId, fuel) <==>
              ancestorId in Ancestry.Walk(byId, Ancestry.ParentOf(byId, id), guard, limit)
    decreases fuel
  {
    assert Ancestry.ParentOf(byId, id) == FindParent(items, id);
    match Find(items, id)
    case None =>
    case Some(r) =>
      var p := r.parentId;
      if Truthy(p) && p.value != ancestorId {
        assert Ancestry.Walk(byId, p, guard, limit) == [p.value] + Ancestry.Walk(byId, Ancestry.ParentOf(byId, p.value), guard + 1, limit);
        DescendantWalk(items, byId, p.value, ancestorId, fuel - 1, guard + 1, limit);
      }
  }

  /** With unique ids the first record with an id is the last one, so the
      two lookups see the same parent. */
  lemma FindAgreesById(items: seq<Record>)
    requires Unique(items)
    ensures Agrees(items, ById(items))
  {
    forall x
      ensures Ancestry.ParentOf(ById(items), x) == FindParent(items, x)
    {
      if x in Ids(items) {
        var i :| 0 <= i < |items| && items[i].id == x;
        UniqueLookups(items, i);
      }
    }
  }

  /** With unique ids, `isDescendant` answers exactly whether the target is
      among the ids `getAncestorIds` returns. */
  lemma DescendantIffAncestor(items: seq<Record>, id: string, ancestorId: string)
    requires Unique(items)
    requires ChainEnds(items, id, |items|)
    ensures IsDescendant(items, id, ancestorId, |items|) <==> ancestorId in Ancestry.AncestorIds(items, id)
  {
    FindAgreesById(items);
    DescendantWalk(items, ById(items), id, ancestorId, |items|, 0, |items| + 1);
  }

  /** With unique ids, the default removal keeps exactly the records other
      than the target whose ancestors, as `getAncestorIds` finds them, do
      not include the target. */
  lemma RemovalDropsSubtree(items: seq<Record>, target: string)
    requires Unique(items)
    requires Acyclic(items)
    ensures forall i | 0 <= i < |items| ::
              items[i] in RemoveDefault(items, target) <==>
              items[i].id != target && target !in Ancestry.AncestorIds(items, items[i].id)
  {
    forall i | 0 <= i < |items|
      ensures items[i] in RemoveDefault(items, target) <==>
              items[i].id != target && target !in Ancestry.AncestorIds(items, items[i].id)
    {
      DescendantIffAncestor(items, items[i].id, target);
      assert items[i] in RemoveDefault(items, target) <==> multiset(RemoveDefault(items, target))[items[i]] > 0;
    }
  }
}
