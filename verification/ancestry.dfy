/**
 * `getAncestorIds` and the expand-to-target effect of the editor
 * (DndTreeEditor.react.tsx): walking parent links upward from a record, with
 * a step counter that cuts the walk short on cyclic links.
 */
module Ancestry {
  import opened Wrappers
  import opened Records

  /** `parentById.get(id) ?? null`: the recorded parent of `id`, `None` when
      `id` has no record or its parent is null. */
  function ParentOf(byId: map<string, Record>, id: string): Option<string>
  {
    if id in byId then byId[id].parentId else None
  }

  /** The walk `while (current) { push; current = parent; guard += 1; if
      (guard > limit) break; }` entered with counter `guard`. */
  function Walk(byId: map<string, Record>, current: Option<string>, guard: nat, limit: nat): seq<string>
    requires guard <= limit
    decreases limit - guard
  {
    if !Truthy(current) then []
    else if guard + 1 > limit then [current.value]
    else [current.value] + Walk(byId, ParentOf(byId, current.value), guard + 1, limit)
  }

  /** What the walk yields: each element is the recorded parent of the one
      before, no element is falsy, the walk stops at the first falsy parent,
      and the counter allows at most `limit - guard + 1` steps. */
  lemma {:induction false} WalkIsParentChain(byId: map<string, Record>, current: Option<string>, guard: nat, limit: nat)
    requires guard <= limit
    ensures var r := Walk(byId, current, guard, limit);
      && |r| <= limit - guard + 1
      && (r == [] <==> !Truthy(current))
      && (r != [] ==> current == Some(r[0]))
      && (forall i | 0 <= i < |r| - 1 :: ParentOf(byId, r[i]) == Some(r[i + 1]))
      && (forall i | 0 <= i < |r| :: r[i] != "")
      && (r != [] && |r| < limit - guard + 1 ==> !Truthy(ParentOf(byId, r[|r| - 1])))
    decreases limit - guard
  {
    if Truthy(current) && guard + 1 <= limit {
      WalkIsParentChain(byId, ParentOf(byId, current.value), guard + 1, limit);
    }
  }

  /** A chain of `ParentOf` links only passes through keys of the map. */
  lemma ChainInMap(byId: map<string, Record>, r: seq<string>)
    requires forall i | 0 <= i < |r| - 1 :: ParentOf(byId, r[i]) == Some(r[i + 1])
    ensures forall i | 0 <= i < |r| - 1 :: r[i] in byId && byId[r[i]].parentId == Some(r[i + 1])
  {
    forall i | 0 <= i < |r| - 1
      ensures r[i] in byId
    {
      assert ParentOf(byId, r[i]) == Some(r[i + 1]);
    }
  }

  /** `getAncestorIds(target)`: the parent of `target`, its parent, and so on,
      with the cycle guard `items.length + 1`. */
  function AncestorIds(items: seq<Record>, target: string): (r: seq<string>)
    ensures |r| <= |items| + 2
    ensures r == [] <==> target !in Ids(items) || !Truthy(ById(items)[target].parentId)
    ensures r != [] ==> ById(items)[target].parentId == Some(r[0])
    ensures forall i | 0 <= i < |r| - 1 :: r[i] in Ids(items) && ById(items)[r[i]].parentId == Some(r[i + 1])
    ensures forall i | 0 <= i < |r| :: r[i] != ""
    ensures r != [] && |r| < |items| + 2 ==>
              r[|r| - 1] !in Ids(items) || !Truthy(ById(items)[r[|r| - 1]].parentId)
  {
    var byId := ById(items);
    var r := Walk(byId, ParentOf(byId, target), 0, |items| + 1);
    WalkIsParentChain(byId, ParentOf(byId, target), 0, |items| + 1);
    ChainInMap(byId, r);
    r
  }

  /** The loop of `getAncestorIds` as written: builds the parent map once,
      then pushes parents until a falsy one or until the guard trips. */
  method GetAncestorIds(items: seq<Record>, target: string) returns (ancestors: seq<string>)
    ensures ancestors == AncestorIds(items, target)
  {
    var byId := ById(items);
    ancestors := WalkLoop(byId, ParentOf(byId, target), |items| + 1);
  }

  /** The `while (current)` loop of `getAncestorIds` over a given parent map. */
  method WalkLoop(byId: map<string, Record>, start: Option<string>, safetyLimit: nat) returns (ancestors: seq<string>)
    ensures ancestors == Walk(byId, start, 0, safetyLimit)
  {
    ancestors := [];
    var current := start;
    var guard := 0;
    while Truthy(current)
      invariant guard == |ancestors| <= safetyLimit
      invariant ancestors + Walk(byId, current, guard, safetyLimit) == Walk(byId, start, 0, safetyLimit)
      decreases safetyLimit - guard
    {
      var id := current.value;
      ghost var rest := Walk(byId, current, guard, safetyLimit);
      ghost var before := ancestors;
      ancestors := ancestors + [id];
      current := ParentOf(byId, id);
      guard := guard + 1;
      if guard > safetyLimit {
        assert rest == [id];
        break;
      }
      ghost var next := Walk(byId, current, guard, safetyLimit);
      assert rest == [id] + next;
      assert (before + [id]) + next == before + ([id] + next);
    }
  }

  /** The expand-to-target effect: when `expandToId` is truthy, names a record
      and has ancestors, those ancestors join the expanded set. */
  function ExpandTo(items: seq<Record>, expanded: set<string>, expandToId: Option<string>): (next: set<string>)
    ensures expanded <= next
    ensures forall x :: x in next <==> x in expanded || (Truthy(expandToId) && x in AncestorIds(items, expandToId.value))
    ensures !Truthy(expandToId) || expandToId.value !in Ids(items) || AncestorIds(items, expandToId.value) == [] ==>
              next == expanded
  {
    if !Truthy(expandToId) then expanded
    else if expandToId.value !in Ids(items) then expanded
    else
      var ancestors := AncestorIds(items, expandToId.value);
      if |ancestors| == 0 then expanded
      else expanded + set a | a in ancestors
  }

  /** Repeating the effect for the same target changes nothing more. */
  lemma ExpandToIdempotent(items: seq<Record>, expanded: set<string>, expandToId: Option<string>)
    ensures ExpandTo(items, ExpandTo(items, expanded, expandToId), expandToId) == ExpandTo(items, expanded, expandToId)
  {
  }
}
