/**
 * The `nested` projection of DndTreeEditor.react.tsx: flat records become a
 * forest. A node per id (the last record with that id wins), each record
 * attached under its parent's node or at the top level when its parent is
 * null, records naming a missing parent dropped, and every sibling list
 * re-sorted by each id's first position in the input.
 */
module Projection {
  import opened Wrappers
  import opened Records
  import opened Tree

  /** Some record with id `id` has `parent_id` equal to `parentId`. */
  predicate PlacedUnder(items: seq<Record>, id: string, parentId: Option<string>)
  {
    exists i | 0 <= i < |items| :: items[i].id == id && items[i].parentId == parentId
  }

  /** The positions of the records with id `id` and `parent_id` equal to
      `parentId`. */
  ghost function PlacedAt(items: seq<Record>, id: string, parentId: Option<string>): set<int>
  {
    set i | 0 <= i < |items| && items[i].id == id && items[i].parentId == parentId
  }

  /** The ids of the records whose `parent_id` is `parentId`, in input
      order: the top-level list for `None`, the `children` pushed onto the
      node of `p` for `Some(p)`. */
  function IdsWithParent(items: seq<Record>, parentId: Option<string>): (r: seq<string>)
    ensures |r| <= |items|
    ensures forall x | x in r :: PlacedUnder(items, x, parentId)
    ensures forall i | 0 <= i < |items| && items[i].parentId == parentId :: items[i].id in r
  {
    if items == [] then []
    else
      var rest := IdsWithParent(items[1..], parentId);
      assert forall i | 1 <= i < |items| :: items[i] == items[1..][i - 1];
      assert forall x | PlacedUnder(items[1..], x, parentId) :: PlacedUnder(items, x, parentId) by {
        forall x | PlacedUnder(items[1..], x, parentId)
          ensures PlacedUnder(items, x, parentId)
        {
          var i :| 0 <= i < |items| - 1 && items[1..][i].id == x && items[1..][i].parentId == parentId;
          assert items[i + 1] == items[1..][i];
        }
      }
      if items[0].parentId == parentId then [items[0].id] + rest else rest
  }

  /** Collecting the sibling ids of a concatenation collects those of each
      part, in order. */
  lemma {:induction false} IdsWithParentAppend(a: seq<Record>, b: seq<Record>, parentId: Option<string>)
    ensures IdsWithParent(a + b, parentId) == IdsWithParent(a, parentId) + IdsWithParent(b, parentId)
    decreases |a|
  {
    if a == [] {
      assert a + b == b;
    } else {
      assert (a + b)[1..] == a[1..] + b;
      IdsWithParentAppend(a[1..], b, parentId);
    }
  }

  /** The last record adds its own position, when it matches, to those of
      the records before it. */
  lemma PlacedAtSnoc(items: seq<Record>, id: string, parentId: Option<string>)
    requires items != []
    ensures var n := |items| - 1;
      |PlacedAt(items, id, parentId)| ==
        |PlacedAt(items[..n], id, parentId)| + if items[n].id == id && items[n].parentId == parentId then 1 else 0
  {
    var n := |items| - 1;
    var init := items[..n];
    assert forall i | 0 <= i < n :: init[i] == items[i];
    if items[n].id == id && items[n].parentId == parentId {
      assert PlacedAt(items, id, parentId) == PlacedAt(init, id, parentId) + {n};
    } else {
      assert PlacedAt(items, id, parentId) == PlacedAt(init, id, parentId);
    }
  }

  /** A sibling list holds an id once for each record carrying that id and
      that parent. */
  lemma {:induction false} IdsWithParentCount(items: seq<Record>, parentId: Option<string>, id: string)
    ensures multiset(IdsWithParent(items, parentId))[id] == |PlacedAt(items, id, parentId)|
    decreases |items|
  {
    if items != [] {
      var n := |items| - 1;
      var init := items[..n];
      IdsWithParentCount(init, parentId, id);
      PlacedAtSnoc(items, id, parentId);
      assert items == init + [items[n]];
      IdsWithParentAppend(init, [items[n]], parentId);
      assert [items[n]][1..] == [];
    }
  }

  /** `ids` is ordered by `key`. */
  predicate SortedBy(key: string -> int, ids: seq<string>)
  {
    forall i, j | 0 <= i < j < |ids| :: key(ids[i]) <= key(ids[j])
  }

  /** One step of a stable insertion sort by `key`. */
  function InsertBy(key: string -> int, x: string, sorted: seq<string>): (r: seq<string>)
    requires SortedBy(key, sorted)
    ensures multiset(r) == multiset(sorted) + multiset{x}
    ensures SortedBy(key, r)
  {
    if sorted == [] || key(x) <= key(sorted[0]) then [x] + sorted
    else
      var rest := InsertBy(key, x, sorted[1..]);
      assert sorted == [sorted[0]] + sorted[1..];
      forall y | y in rest
        ensures key(sorted[0]) <= key(y)
      {
        assert y in multiset(rest);
        if y != x {
          assert y in multiset(sorted[1..]);
        }
      }
      PrependSorted(key, sorted[0], rest);
      [sorted[0]] + rest
  }

  lemma PrependSorted(key: string -> int, head: string, rest: seq<string>)
    requires SortedBy(key, rest)
    requires forall y | y in rest :: key(head) <= key(y)
    ensures SortedBy(key, [head] + rest)
  {
    var r := [head] + rest;
    forall i, j | 0 <= i < j < |r|
      ensures key(r[i]) <= key(r[j])
    {
      assert r[j] == rest[j - 1];
      if i > 0 {
        assert r[i] == rest[i - 1];
      }
    }
  }

  /** A stable sort of `ids` by `key`: a permutation of `ids` in key order. */
  function SortBy(key: string -> int, ids: seq<string>): (r: seq<string>)
    ensures multiset(r) == multiset(ids)
    ensures forall x :: x in r <==> x in ids
    ensures SortedBy(key, r)
  {
    if ids == [] then []
    else
      var rest := SortBy(key, ids[1..]);
      assert ids == [ids[0]] + ids[1..];
      var r := InsertBy(key, ids[0], rest);
      assert forall x :: x in r <==> x in multiset(r);
      assert forall x :: x in ids <==> x in multiset(ids);
      r
  }

  /** The sort key of `sortChildren`: an id's first position in the input
      (`items.findIndex(item => item.id === id)`). */
  function Position(items: seq<Record>): string -> int
  {
    id => FirstIndex(items, id)
  }

  /** Sibling ids in the order `sortChildren` leaves them. */
  predicate InPositionOrder(items: seq<Record>, ids: seq<string>)
  {
    SortedBy(Position(items), ids)
  }

  /** `treeItems.sort((a, b) => findIndex(a) - findIndex(b))`. JavaScript's
      sort is stable; since two ids with the same first position are the same
      id, the order among equal keys is immaterial here. */
  function SortByPosition(items: seq<Record>, ids: seq<string>): seq<string>
  {
    SortBy(Position(items), ids)
  }

  /** `label || id`: a truthy label, otherwise the id. */
  function DisplayLabel(r: Record): string
  {
    if Truthy(r.caption) then r.caption.value else r.id
  }

  /** The node the first pass stores for `id`, made from the last record
      with that id: collapsed unless expanded, labelled, carrying the record. */
  function MakeNode(items: seq<Record>, expanded: set<string>, id: string, children: seq<TreeNode>): TreeNode
    requires id in Ids(items)
  {
    var r := ById(items)[id];
    TreeNode(id, children, Some(id !in expanded), Some(DisplayLabel(r)), Some(r))
  }

  /** The subtree under the node of `id`. `unvisited` holds the ids not yet
      on the path from the top level down to here: an id met again on its own
      path is not expanded a second time. Only duplicate ids can make a path
      revisit an id, and on such input `sortChildren` recurses without end. */
  function Build(items: seq<Record>, expanded: set<string>, id: string, unvisited: set<string>): TreeNode
    requires unvisited <= Ids(items)
    requires id in unvisited
    decreases |unvisited|, 0
  {
    var kids := SortByPosition(items, IdsWithParent(items, Some(id)));
    MakeNode(items, expanded, id, BuildList(items, expanded, kids, unvisited - {id}))
  }

  /** The subtrees for a sibling list, in the list's order. */
  function BuildList(items: seq<Record>, expanded: set<string>, ids: seq<string>, unvisited: set<string>): seq<TreeNode>
    requires unvisited <= Ids(items)
    decreases |unvisited|, |ids|
  {
    if ids == [] then []
    else if ids[0] in unvisited then
      [Build(items, expanded, ids[0], unvisited)] + BuildList(items, expanded, ids[1..], unvisited)
    else BuildList(items, expanded, ids[1..], unvisited)
  }

  /** The `nested` memo: the sorted top-level list of the forest. */
  function Nested(items: seq<Record>, expanded: set<string>): seq<TreeNode>
  {
    BuildList(items, expanded, SortByPosition(items, IdsWithParent(items, None)), Ids(items))
  }

  // ---------------------------------------------------------------------
  // What the projection promises.
  // ---------------------------------------------------------------------

  /** What every node of a projected forest satisfies: it stands for a record
      of the input and shows that record's state. */
  ghost predicate ProjectedFrom(items: seq<Record>, expanded: set<string>, s: Slot)
  {
    && s.node.id in Ids(items)
    && s.node.collapsed == Some(s.node.id !in expanded)
    && s.node.data == Some(ById(items)[s.node.id])
    && s.node.caption == Some(DisplayLabel(ById(items)[s.node.id]))
    && (s.parentId.None? || s.parentId.value in Ids(items))
    && PlacedUnder(items, s.node.id, s.parentId)
  }

  lemma {:induction false} BuildProjected(items: seq<Record>, expanded: set<string>, id: string, unvisited: set<string>, parentId: Option<string>)
    requires unvisited <= Ids(items)
    requires id in unvisited
    requires parentId.None? || parentId.value in Ids(items)
    requires PlacedUnder(items, id, parentId)
    ensures forall k | 0 <= k < |Preorder([Build(items, expanded, id, unvisited)], parentId)| ::
              ProjectedFrom(items, expanded, Preorder([Build(items, expanded, id, unvisited)], parentId)[k])
    decreases |unvisited|, 0
  {
    var node := Build(items, expanded, id, unvisited);
    var kids := SortByPosition(items, IdsWithParent(items, Some(id)));
    var children := BuildList(items, expanded, kids, unvisited - {id});
    assert node == MakeNode(items, expanded, id, children);
    BuildListProjected(items, expanded, kids, unvisited - {id}, Some(id));
    PreorderSingle(node, parentId);
    var whole := Preorder([node], parentId);
    var below := Preorder(children, Some(id));
    assert ProjectedFrom(items, expanded, Slot(node, parentId));
    forall k | 0 <= k < |whole|
      ensures ProjectedFrom(items, expanded, whole[k])
    {
      if k > 0 {
        assert whole[k] == below[k - 1];
      }
    }
  }

  lemma {:induction false} BuildListProjected(items: seq<Record>, expanded: set<string>, ids: seq<string>, unvisited: set<string>, parentId: Option<string>)
    requires unvisited <= Ids(items)
    requires parentId.None? || parentId.value in Ids(items)
    requires forall x | x in ids :: PlacedUnder(items, x, parentId)
    ensures forall k | 0 <= k < |Preorder(BuildList(items, expanded, ids, unvisited), parentId)| ::
              ProjectedFrom(items, expanded, Preorder(BuildList(items, expanded, ids, unvisited), parentId)[k])
    decreases |unvisited|, |ids|
  {
    if ids != [] {
      assert ids[0] in ids;
      assert forall x | x in ids[1..] :: x in ids;
      BuildListProjected(items, expanded, ids[1..], unvisited, parentId);
      if ids[0] in unvisited {
        BuildProjected(items, expanded, ids[0], unvisited, parentId);
        PreorderAppend([Build(items, expanded, ids[0], unvisited)], BuildList(items, expanded, ids[1..], unvisited), parentId);
      }
    }
  }

  /** Every node of the projection, at any depth, stands for a record: its
      `collapsed` flag is `!expandedIds.has(id)`, its label is `label || id`
      and its `data` is the record (the last one with that id); and it sits
      where some record with its id asks to be put: at the top level for a
      null `parent_id`, otherwise under an existing id. */
  lemma NestedProjected(items: seq<Record>, expanded: set<string>)
    ensures forall k | 0 <= k < |Preorder(Nested(items, expanded), None)| ::
              ProjectedFrom(items, expanded, Preorder(Nested(items, expanded), None)[k])
  {
    var roots := SortByPosition(items, IdsWithParent(items, None));
    BuildListProjected(items, expanded, roots, Ids(items), None);
  }

  /** A record whose `parent_id` names no record is attached nowhere: with
      unique ids, its id appears at no depth of the projection. */
  lemma OrphansDropped(items: seq<Record>, expanded: set<string>, i: int)
    requires Unique(items)
    requires 0 <= i < |items|
    requires items[i].parentId.Some? && items[i].parentId.value !in Ids(items)
    ensures forall k | 0 <= k < |Preorder(Nested(items, expanded), None)| ::
              Preorder(Nested(items, expanded), None)[k].node.id != items[i].id
  {
    NestedProjected(items, expanded);
  }

  /** A sibling list whose ids are all unvisited is built without dropping
      any: the top-level ids are the list itself. */
  lemma {:induction false} BuildListKeepsAll(items: seq<Record>, expanded: set<string>, ids: seq<string>, unvisited: set<string>)
    requires unvisited <= Ids(items)
    requires forall x | x in ids :: x in unvisited
    ensures TopIds(BuildList(items, expanded, ids, unvisited)) == ids
    decreases |ids|
  {
    if ids != [] {
      BuildListKeepsAll(items, expanded, ids[1..], unvisited);
      var f := BuildList(items, expanded, ids, unvisited);
      assert f[1..] == BuildList(items, expanded, ids[1..], unvisited);
    }
  }

  /** The top-level list holds exactly the records whose `parent_id` is
      null, each as often as such records carry its id, in first-position
      order. */
  lemma NestedRoots(items: seq<Record>, expanded: set<string>)
    ensures multiset(TopIds(Nested(items, expanded))) == multiset(IdsWithParent(items, None))
    ensures InPositionOrder(items, TopIds(Nested(items, expanded)))
  {
    var roots := SortByPosition(items, IdsWithParent(items, None));
    forall x | x in roots
      ensures x in Ids(items)
    {
      assert PlacedUnder(items, x, None);
    }
    BuildListKeepsAll(items, expanded, roots, Ids(items));
  }

  /** The top-level ids of a built list are drawn from the list, in order. */
  lemma {:induction false} BuildListOrdered(items: seq<Record>, expanded: set<string>, ids: seq<string>, unvisited: set<string>)
    requires unvisited <= Ids(items)
    requires InPositionOrder(items, ids)
    ensures forall x | x in TopIds(BuildList(items, expanded, ids, unvisited)) :: x in ids
    ensures InPositionOrder(items, TopIds(BuildList(items, expanded, ids, unvisited)))
    decreases |ids|
  {
    if ids != [] {
      BuildListOrdered(items, expanded, ids[1..], unvisited);
      var key := Position(items);
      SortedTail(key, ids);
      if ids[0] in unvisited {
        var tail := BuildList(items, expanded, ids[1..], unvisited);
        var f := BuildList(items, expanded, ids, unvisited);
        assert f == [Build(items, expanded, ids[0], unvisited)] + tail;
        assert TopIds(f) == [ids[0]] + TopIds(tail) by {
          assert f[1..] == tail;
        }
        PrependSorted(key, ids[0], TopIds(tail));
      }
    }
  }

  /** The tail of a sorted list is sorted and bounded below by its head. */
  lemma SortedTail(key: string -> int, ids: seq<string>)
    requires SortedBy(key, ids)
    requires ids != []
    ensures SortedBy(key, ids[1..])
    ensures forall y | y in ids[1..] :: key(ids[0]) <= key(y)
  {
    forall i, j | 0 <= i < j < |ids| - 1
      ensures key(ids[1..][i]) <= key(ids[1..][j])
    {
      assert ids[1..][i] == ids[i + 1] && ids[1..][j] == ids[j + 1];
    }
    forall y | y in ids[1..]
      ensures key(ids[0]) <= key(y)
    {
      var j :| 0 <= j < |ids| - 1 && ids[1..][j] == y;
      assert ids[j + 1] == y;
    }
  }

  /** Every sibling list of a projected subtree is in first-position order. */
  ghost predicate SiblingsInOrder(items: seq<Record>, forest: seq<TreeNode>)
  {
    && InPositionOrder(items, TopIds(forest))
    && forall k | 0 <= k < |Preorder(forest, None)| :: InPositionOrder(items, TopIds(Preorder(forest, None)[k].node.children))
  }

  lemma {:induction false} BuildOrdered(items: seq<Record>, expanded: set<string>, id: string, unvisited: set<string>)
    requires unvisited <= Ids(items)
    requires id in unvisited
    ensures SiblingsInOrder(items, [Build(items, expanded, id, unvisited)])
    decreases |unvisited|, 0
  {
    var kids := SortByPosition(items, IdsWithParent(items, Some(id)));
    var children := BuildList(items, expanded, kids, unvisited - {id});
    var node := Build(items, expanded, id, unvisited);
    assert node == MakeNode(items, expanded, id, children);
    BuildListOrdered(items, expanded, kids, unvisited - {id});
    BuildListSiblingsInOrder(items, expanded, kids, unvisited - {id});
    PreorderSingle(node, None);
    PreorderNodes(children, Some(id), None);
    var whole := Preorder([node], None);
    var below := Preorder(children, None);
    forall k | 0 <= k < |whole|
      ensures InPositionOrder(items, TopIds(whole[k].node.children))
    {
      if k > 0 {
        assert whole[k].node == below[k - 1].node;
      }
    }
    assert InPositionOrder(items, TopIds([node]));
  }

  lemma {:induction false} BuildListSiblingsInOrder(items: seq<Record>, expanded: set<string>, ids: seq<string>, unvisited: set<string>)
    requires unvisited <= Ids(items)
    requires InPositionOrder(items, ids)
    ensures SiblingsInOrder(items, BuildList(items, expanded, ids, unvisited))
    decreases |unvisited|, |ids|
  {
    BuildListOrdered(items, expanded, ids, unvisited);
    if ids != [] {
      BuildListSiblingsInOrder(items, expanded, ids[1..], unvisited);
      if ids[0] in unvisited {
        var head := [Build(items, expanded, ids[0], unvisited)];
        var tail := BuildList(items, expanded, ids[1..], unvisited);
        BuildOrdered(items, expanded, ids[0], unvisited);
        PreorderAppend(head, tail, None);
      }
    }
  }

  /** After `sortChildren`, every sibling list at every depth, the top-level
      list included, is ordered by each id's first position in the input. */
  lemma NestedSiblingsInOrder(items: seq<Record>, expanded: set<string>)
    ensures SiblingsInOrder(items, Nested(items, expanded))
  {
    BuildListSiblingsInOrder(items, expanded, SortByPosition(items, IdsWithParent(items, None)), Ids(items));
  }
}
