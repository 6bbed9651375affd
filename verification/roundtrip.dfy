/**
 * How the projection and the reconciler of DndTreeEditor.react.tsx fit
 * together: on a well-formed record list (unique ids, every parent present,
 * no cycle) reconciling the untouched projection gives back the same
 * records, in pre-order, and the expanded ids that have children.
 */
module RoundTrip {
  import opened Wrappers
  import opened Records
  import opened Tree
  import opened Projection
  import opened Reconcile

  /** Following `parent_id` from `id` through existing records (the last
      record with each id) reaches a record whose `parent_id` is null within
      `fuel` steps. */
  predicate ReachesRoot(items: seq<Record>, id: string, fuel: nat)
    decreases fuel
  {
    && id in Ids(items)
    && match ById(items)[id].parentId
       case None => true
       case Some(p) => fuel > 0 && ReachesRoot(items, p, fuel - 1)
  }

  /** Every parent a record names exists, and there is no cycle: each
      record's chain of parents ends at a root within as many steps as there
      are records. */
  ghost predicate Rooted(items: seq<Record>)
  {
    forall x :: RootedAt(items, x)
  }

  /** The chain of parents from `id`, when it is an id of the list, ends at a
      root within as many steps as there are records. */
  predicate RootedAt(items: seq<Record>, id: string)
  {
    id in Ids(items) ==> ReachesRoot(items, id, |items|)
  }

  /** Some record names `id` as its parent. */
  predicate HasChildren(items: seq<Record>, id: string)
  {
    exists i | 0 <= i < |items| :: items[i].parentId == Some(id)
  }

  // ---------------------------------------------------------------------
  // Depth in the parent forest.
  // ---------------------------------------------------------------------

  /** The number of parent links from `id` up to its root. */
  function Depth(items: seq<Record>, id: string, fuel: nat): nat
    requires ReachesRoot(items, id, fuel)
    decreases fuel
  {
    match ById(items)[id].parentId
    case None => 0
    case Some(p) => 1 + Depth(items, p, fuel - 1)
  }

  /** More fuel changes neither the verdict nor the depth. */
  lemma {:induction false} MoreFuel(items: seq<Record>, id: string, fuel: nat, more: nat)
    requires ReachesRoot(items, id, fuel)
    requires fuel <= more
    ensures ReachesRoot(items, id, more)
    ensures Depth(items, id, fuel) == Depth(items, id, more)
    decreases fuel
  {
    match ById(items)[id].parentId
    case None =>
    case Some(p) => MoreFuel(items, p, fuel - 1, more - 1);
  }

  /** One step up the chain: the parent reaches a root with one step less. */
  lemma Step(items: seq<Record>, id: string, p: string, fuel: nat)
    requires ReachesRoot(items, id, fuel)
    requires ById(items)[id].parentId == Some(p)
    ensures fuel > 0 && ReachesRoot(items, p, fuel - 1)
    ensures Depth(items, id, fuel) == 1 + Depth(items, p, fuel - 1)
  {
  }

  /** The depth of a record of a rooted list. */
  function D(items: seq<Record>, id: string): nat
    requires Rooted(items)
    requires id in Ids(items)
  {
    assert RootedAt(items, id);
    Depth(items, id, |items|)
  }

  /** A record is one deeper than its parent. */
  lemma ParentStep(items: seq<Record>, id: string, p: string)
    requires Rooted(items)
    requires id in Ids(items)
    requires ById(items)[id].parentId == Some(p)
    ensures p in Ids(items)
    ensures D(items, id) == D(items, p) + 1
  {
    assert RootedAt(items, id);
    Step(items, id, p, |items|);
    MoreFuel(items, p, |items| - 1, |items|);
  }

  // ---------------------------------------------------------------------
  // Unique ids.
  // ---------------------------------------------------------------------

  /** With unique ids, where a record is placed is decided by its own
      `parent_id`. */
  lemma PlacedUnderUnique(items: seq<Record>, id: string, parentId: Option<string>)
    requires Unique(items)
    requires id in Ids(items)
    ensures PlacedUnder(items, id, parentId) <==> ById(items)[id].parentId == parentId
  {
    var i :| 0 <= i < |items| && items[i].id == id;
    UniqueLookups(items, i);
    if PlacedUnder(items, id, parentId) {
      var j :| 0 <= j < |items| && items[j].id == id && items[j].parentId == parentId;
      UniqueLookups(items, j);
    }
  }

  /** With unique ids, an id occurs in a sibling list once when its record
      is placed there and not at all otherwise. */
  lemma {:induction false} SiblingCount(items: seq<Record>, parentId: Option<string>, id: string)
    requires Unique(items)
    ensures multiset(IdsWithParent(items, parentId))[id] == if PlacedUnder(items, id, parentId) then 1 else 0
  {
    if items != [] {
      var tail := items[1..];
      assert forall i | 0 <= i < |tail| :: tail[i] == items[i + 1];
      assert Unique(tail);
      SiblingCount(tail, parentId, id);
      assert PlacedUnder(items, id, parentId) <==>
             (items[0].id == id && items[0].parentId == parentId) || PlacedUnder(tail, id, parentId) by {
        if PlacedUnder(items, id, parentId) {
          var i :| 0 <= i < |items| && items[i].id == id && items[i].parentId == parentId;
          if i > 0 {
            assert tail[i - 1] == items[i];
          }
        }
      }
      assert items[0].id == id ==> !PlacedUnder(tail, id, parentId);
    }
  }

  /** With unique ids, two records of the list with the same id are the
      same record. */
  lemma SameIdSameRecord(items: seq<Record>, a: Record, b: Record)
    requires Unique(items)
    requires a in items && b in items
    requires a.id == b.id
    ensures a == b
  {
    var i :| 0 <= i < |items| && items[i] == a;
    var j :| 0 <= j < |items| && items[j] == b;
    if i != j {
      assert false;
    }
  }

  // ---------------------------------------------------------------------
  // Counting the nodes of the projection.
  // ---------------------------------------------------------------------

  /** How many slots hold a node with id `id`. */
  function CountId(slots: seq<Slot>, id: string): nat
  {
    if slots == [] then 0
    else (if slots[0].node.id == id then 1 else 0) + CountId(slots[1..], id)
  }

  lemma {:induction false} CountAppend(a: seq<Slot>, b: seq<Slot>, id: string)
    ensures CountId(a + b, id) == CountId(a, id) + CountId(b, id)
    decreases |a|
  {
    if a == [] {
      assert a + b == b;
    } else {
      assert (a + b)[1..] == a[1..] + b;
      CountAppend(a[1..], b, id);
    }
  }

  lemma {:induction false} CountPositive(slots: seq<Slot>, id: string)
    requires CountId(slots, id) > 0
    ensures exists k | 0 <= k < |slots| :: slots[k].node.id == id
    decreases |slots|
  {
    if slots[0].node.id != id {
      CountPositive(slots[1..], id);
      var k :| 0 <= k < |slots| - 1 && slots[1..][k].node.id == id;
      assert slots[k + 1] == slots[1..][k];
    }
  }

  lemma {:induction false} CountAbsent(slots: seq<Slot>, id: string)
    requires forall k | 0 <= k < |slots| :: slots[k].node.id != id
    ensures CountId(slots, id) == 0
    decreases |slots|
  {
    if slots != [] {
      assert forall k | 0 <= k < |slots| - 1 :: slots[1..][k] == slots[k + 1];
      CountAbsent(slots[1..], id);
    }
  }

  /** How many slots hold the parent of `id` (none for a root). */
  function ParentCount(items: seq<Record>, slots: seq<Slot>, id: string): nat
    requires id in Ids(items)
  {
    match ById(items)[id].parentId
    case None => 0
    case Some(p) => CountId(slots, p)
  }

  /** What the count lemmas below establish for a projected subtree: an id
      occurs once for each time it starts a sibling list here plus once for
      each occurrence of its parent; and every node has one child per
      record placed under it. */
  ghost predicate CountsHold(items: seq<Record>, tops: seq<string>, slots: seq<Slot>)
  {
    && (forall y | y in Ids(items) :: CountId(slots, y) == multiset(tops)[y] + ParentCount(items, slots, y))
    && (forall k | 0 <= k < |slots| :: |slots[k].node.children| == |IdsWithParent(items, Some(slots[k].node.id))|)
  }

  /** The count equation for a node placed before the pre-order of its
      children. */
  lemma NodeCount(items: seq<Record>, id: string, kids: seq<string>, whole: seq<Slot>, below: seq<Slot>, y: string)
    requires Unique(items)
    requires y in Ids(items)
    requires multiset(kids) == multiset(IdsWithParent(items, Some(id)))
    requires whole != [] && whole[0].node.id == id && whole[1..] == below
    requires CountId(below, y) == multiset(kids)[y] + ParentCount(items, below, y)
    ensures CountId(whole, y) == multiset([id])[y] + ParentCount(items, whole, y)
  {
    SiblingCount(items, Some(id), y);
    PlacedUnderUnique(items, y, Some(id));
    match ById(items)[y].parentId
    case None =>
    case Some(p) =>
  }

  /** The count equation and the child counts carry over to the
      concatenation of two sibling lists' pre-orders. */
  lemma CountsAppend(items: seq<Record>, ta: seq<string>, tb: seq<string>, a: seq<Slot>, b: seq<Slot>)
    requires CountsHold(items, ta, a) && CountsHold(items, tb, b)
    ensures CountsHold(items, ta + tb, a + b)
  {
    forall y | y in Ids(items)
      ensures CountId(a + b, y) == multiset(ta + tb)[y] + ParentCount(items, a + b, y)
    {
      CountAppend(a, b, y);
      match ById(items)[y].parentId
      case None =>
      case Some(p) => CountAppend(a, b, p);
    }
    forall k | 0 <= k < |a + b|
      ensures |(a + b)[k].node.children| == |IdsWithParent(items, Some((a + b)[k].node.id))|
    {
      if k >= |a| {
        assert (a + b)[k] == b[k - |a|];
      }
    }
  }

  /** A record placed under `id` is one deeper than `id`. */
  lemma ChildDeeper(items: seq<Record>, id: string, c: string)
    requires Unique(items) && Rooted(items)
    requires c in IdsWithParent(items, Some(id))
    ensures id in Ids(items) && c in Ids(items)
    ensures D(items, c) == D(items, id) + 1
  {
    assert PlacedUnder(items, c, Some(id));
    PlacedUnderUnique(items, c, Some(id));
    ParentStep(items, c, id);
  }

  /** The counts of a node follow from those of its children. */
  lemma NodeCountsHold(items: seq<Record>, node: TreeNode, kids: seq<string>, parentId: Option<string>)
    requires Unique(items)
    requires multiset(kids) == multiset(IdsWithParent(items, Some(node.id)))
    requires TopIds(node.children) == kids
    requires CountsHold(items, kids, Preorder(node.children, Some(node.id)))
    ensures CountsHold(items, [node.id], Preorder([node], parentId))
  {
    PreorderSingle(node, parentId);
    var whole := Preorder([node], parentId);
    var below := Preorder(node.children, Some(node.id));
    assert whole[1..] == below;
    forall y | y in Ids(items)
      ensures CountId(whole, y) == multiset([node.id])[y] + ParentCount(items, whole, y)
    {
      NodeCount(items, node.id, kids, whole, below, y);
    }
    forall k | 0 <= k < |whole|
      ensures |whole[k].node.children| == |IdsWithParent(items, Some(whole[k].node.id))|
    {
      if k == 0 {
        assert |node.children| == |kids| == |multiset(kids)|;
      } else {
        assert whole[k] == below[k - 1];
      }
    }
  }

  lemma {:induction false} BuildCounts(items: seq<Record>, expanded: set<string>, id: string, unvisited: set<string>, parentId: Option<string>)
    requires Unique(items) && Rooted(items)
    requires unvisited <= Ids(items)
    requires id in unvisited
    requires forall y | y in Ids(items) && D(items, y) >= D(items, id) :: y in unvisited
    ensures CountsHold(items, [id], Preorder([Build(items, expanded, id, unvisited)], parentId))
    decreases |unvisited|, 0
  {
    var d := D(items, id);
    var kids := SortByPosition(items, IdsWithParent(items, Some(id)));
    var rest := unvisited - {id};
    forall c | c in kids
      ensures c in Ids(items) && D(items, c) == d + 1
    {
      ChildDeeper(items, id, c);
    }
    forall y | y in Ids(items) && D(items, y) >= d + 1
      ensures y in rest
    {
    }
    BuildListCounts(items, expanded, kids, rest, d + 1, Some(id));
    var children := BuildList(items, expanded, kids, rest);
    var node := Build(items, expanded, id, unvisited);
    assert node == MakeNode(items, expanded, id, children);
    NodeCountsHold(items, node, kids, parentId);
  }

  lemma {:induction false} BuildListCounts(items: seq<Record>, expanded: set<string>, ids: seq<string>, unvisited: set<string>, d: nat, parentId: Option<string>)
    requires Unique(items) && Rooted(items)
    requires unvisited <= Ids(items)
    requires forall x | x in ids :: x in Ids(items) && D(items, x) == d
    requires forall y | y in Ids(items) && D(items, y) >= d :: y in unvisited
    ensures TopIds(BuildList(items, expanded, ids, unvisited)) == ids
    ensures CountsHold(items, ids, Preorder(BuildList(items, expanded, ids, unvisited), parentId))
    decreases |unvisited|, |ids|
  {
    BuildListKeepsAll(items, expanded, ids, unvisited);
    if ids != [] {
      var x := ids[0];
      assert x in ids;
      assert forall y | y in ids[1..] :: y in ids;
      BuildCounts(items, expanded, x, unvisited, parentId);
      BuildListCounts(items, expanded, ids[1..], unvisited, d, parentId);
      var head := [Build(items, expanded, x, unvisited)];
      var tail := BuildList(items, expanded, ids[1..], unvisited);
      assert BuildList(items, expanded, ids, unvisited) == head + tail;
      PreorderAppend(head, tail, parentId);
      var ph: seq<Slot> := Preorder(head, parentId);
      var pt: seq<Slot> := Preorder(tail, parentId);
      assert ids == [x] + ids[1..];
      CountsAppend(items, [x], ids[1..], ph, pt);
    }
  }

  /** The count equation for the whole projection, whose top level is the
      sorted list of roots. */
  lemma NestedCountsHold(items: seq<Record>, expanded: set<string>)
    requires Unique(items) && Rooted(items)
    ensures CountsHold(items, SortByPosition(items, IdsWithParent(items, None)), Preorder(Nested(items, expanded), None))
  {
    var roots := SortByPosition(items, IdsWithParent(items, None));
    forall x | x in roots
      ensures x in Ids(items) && D(items, x) == 0
    {
      assert PlacedUnder(items, x, None);
      PlacedUnderUnique(items, x, None);
    }
    BuildListCounts(items, expanded, roots, Ids(items), 0, None);
  }

  /** With unique ids and rooted records, every id occurs exactly once in
      the projection, and no other id occurs. */
  lemma NestedCounts(items: seq<Record>, expanded: set<string>)
    requires Unique(items) && Rooted(items)
    ensures forall y :: CountId(Preorder(Nested(items, expanded), None), y) == if y in Ids(items) then 1 else 0
  {
    var slots := Preorder(Nested(items, expanded), None);
    NestedCountsHold(items, expanded);
    NestedProjected(items, expanded);
    forall y
      ensures CountId(slots, y) == if y in Ids(items) then 1 else 0
    {
      if y in Ids(items) {
        OnceEach(items, expanded, y);
      } else {
        assert forall k | 0 <= k < |slots| :: ProjectedFrom(items, expanded, slots[k]);
        CountAbsent(slots, y);
      }
    }
  }

  lemma {:induction false} OnceEach(items: seq<Record>, expanded: set<string>, y: string)
    requires Unique(items) && Rooted(items)
    requires y in Ids(items)
    requires CountsHold(items, SortByPosition(items, IdsWithParent(items, None)), Preorder(Nested(items, expanded), None))
    ensures CountId(Preorder(Nested(items, expanded), None), y) == 1
    decreases D(items, y)
  {
    var roots := SortByPosition(items, IdsWithParent(items, None));
    SiblingCount(items, None, y);
    PlacedUnderUnique(items, y, None);
    assert multiset(roots)[y] == multiset(IdsWithParent(items, None))[y];
    match ById(items)[y].parentId
    case None =>
    case Some(p) =>
      ParentStep(items, y, p);
      OnceEach(items, expanded, p);
  }

  // ---------------------------------------------------------------------
  // The round trip.
  // ---------------------------------------------------------------------

  /** Each record the reconciler emits for the untouched projection is an
      input record, unchanged, and sits where the projection put its id. */
  lemma EmittedUnchanged(items: seq<Record>, expanded: set<string>)
    requires Unique(items)
    ensures var slots := Preorder(Nested(items, expanded), None);
      var out := HandleItemsChange(items, Nested(items, expanded)).items;
      |out| == |slots| && forall k | 0 <= k < |out| :: out[k] in items && out[k].id == slots[k].node.id
  {
    var forest := Nested(items, expanded);
    var slots := Preorder(forest, None);
    var out := HandleItemsChange(items, forest).items;
    NestedProjected(items, expanded);
    forall k | 0 <= k < |out|
      ensures out[k] in items && out[k].id == slots[k].node.id
    {
      assert ProjectedFrom(items, expanded, slots[k]);
      var i :| 0 <= i < |items| && items[i].id == slots[k].node.id && items[i].parentId == slots[k].parentId;
      UniqueLookups(items, i);
      assert out[k] == Emit(items, slots[k].node.id, slots[k].parentId);
    }
  }

  lemma {:induction false} CountRecords(items: seq<Record>, out: seq<Record>, slots: seq<Slot>, r: Record)
    requires Unique(items)
    requires r in items
    requires |out| == |slots|
    requires forall k | 0 <= k < |out| :: out[k] in items && out[k].id == slots[k].node.id
    ensures multiset(out)[r] == CountId(slots, r.id)
    decreases |out|
  {
    if out != [] {
      assert forall k | 0 <= k < |out| - 1 :: out[1..][k] == out[k + 1] && slots[1..][k] == slots[k + 1];
      CountRecords(items, out[1..], slots[1..], r);
      assert out == [out[0]] + out[1..];
      if out[0].id == r.id {
        SameIdSameRecord(items, out[0], r);
      }
    }
  }

  /** With unique ids, every parent present and no cycle, reconciling the
      untouched projection gives back exactly the input records, each with
      all its fields and its `parent_id`. */
  lemma RoundTripRecords(items: seq<Record>, expanded: set<string>)
    requires Unique(items) && Rooted(items)
    ensures multiset(HandleItemsChange(items, Nested(items, expanded)).items) == multiset(items)
  {
    var slots := Preorder(Nested(items, expanded), None);
    var out := HandleItemsChange(items, Nested(items, expanded)).items;
    EmittedUnchanged(items, expanded);
    NestedCounts(items, expanded);
    forall r
      ensures multiset(out)[r] == multiset(items)[r]
    {
      if r in items {
        CountRecords(items, out, slots, r);
        UniqueOnce(items, r);
        assert r.id in Ids(items);
      } else {
        assert r !in out;
      }
    }
  }

  /** ... and recomputes as expanded exactly the expanded ids that have
      children. */
  lemma RoundTripExpanded(items: seq<Record>, expanded: set<string>)
    requires Unique(items) && Rooted(items)
    ensures forall x :: x in HandleItemsChange(items, Nested(items, expanded)).expanded <==>
              x in Ids(items) && x in expanded && HasChildren(items, x)
  {
    var slots := Preorder(Nested(items, expanded), None);
    NestedCounts(items, expanded);
    NestedCountsHold(items, expanded);
    NestedProjected(items, expanded);
    forall x
      ensures OpenIn(slots, x) <==> x in Ids(items) && x in expanded && HasChildren(items, x)
    {
      if OpenIn(slots, x) {
        var k :| 0 <= k < |slots| && slots[k].node.id == x && IsOpen(slots[k].node);
        assert ProjectedFrom(items, expanded, slots[k]);
        var kids := IdsWithParent(items, Some(x));
        assert kids[0] in kids;
      }
      if x in Ids(items) && x in expanded && HasChildren(items, x) {
        CountPositive(slots, x);
        var k :| 0 <= k < |slots| && slots[k].node.id == x;
        assert ProjectedFrom(items, expanded, slots[k]);
        var i :| 0 <= i < |items| && items[i].parentId == Some(x);
        assert items[i].id in IdsWithParent(items, Some(x));
      }
    }
  }

  // ---------------------------------------------------------------------
  // Only rooted records are shown.
  // ---------------------------------------------------------------------

  /** Every slot holds a node whose chain of parents reaches a root. */
  ghost predicate AllRooted(items: seq<Record>, slots: seq<Slot>)
  {
    forall k | 0 <= k < |slots| :: ReachesRoot(items, slots[k].node.id, |items|)
  }

  lemma AllRootedAppend(items: seq<Record>, a: seq<Slot>, b: seq<Slot>)
    requires AllRooted(items, a) && AllRooted(items, b)
    ensures AllRooted(items, a + b)
  {
    forall k | 0 <= k < |a + b|
      ensures ReachesRoot(items, (a + b)[k].node.id, |items|)
    {
      if k >= |a| {
        assert (a + b)[k] == b[k - |a|];
      }
    }
  }

  lemma SubsetSize<T>(a: set<T>, b: set<T>)
    requires a <= b
    ensures |a| <= |b|
  {
    assert b == a + (b - a);
  }

  /** A record whose parent reaches a root within `fuel - 1` steps reaches
      one within `fuel`. */
  lemma StepUp(items: seq<Record>, id: string, parentId: Option<string>, fuel: nat)
    requires id in Ids(items)
    requires ById(items)[id].parentId == parentId
    requires parentId.Some? ==> fuel > 0 && ReachesRoot(items, parentId.value, fuel - 1)
    ensures ReachesRoot(items, id, fuel)
  {
  }

  /** The parent of a sibling list being built, if any, reaches a root
      within the number of ids already visited. */
  ghost predicate ParentBound(items: seq<Record>, unvisited: set<string>, parentId: Option<string>)
  {
    parentId.Some? ==> |unvisited| < |Ids(items)| && ReachesRoot(items, parentId.value, |Ids(items)| - |unvisited| - 1)
  }

  /** The children `sortChildren` lists for `id` are placed under it. */
  lemma KidsPlaced(items: seq<Record>, id: string)
    ensures forall x | x in SortByPosition(items, IdsWithParent(items, Some(id))) :: PlacedUnder(items, x, Some(id))
  {
  }

  /** The fuel bookkeeping of `BuildRooted`: a record reached with
      `unvisited` ids left reaches a root within the ids already visited. */
  lemma RootedWithin(items: seq<Record>, id: string, unvisited: set<string>, parentId: Option<string>)
    requires Unique(items)
    requires unvisited <= Ids(items)
    requires id in unvisited
    requires PlacedUnder(items, id, parentId)
    requires ParentBound(items, unvisited, parentId)
    ensures ParentBound(items, unvisited - {id}, Some(id))
    ensures ReachesRoot(items, id, |items|)
  {
    var n := |Ids(items)|;
    IdsBound(items);
    PlacedUnderUnique(items, id, parentId);
    SubsetSize(unvisited, Ids(items));
    assert |unvisited - {id}| == |unvisited| - 1;
    StepUp(items, id, parentId, n - |unvisited|);
    MoreFuel(items, id, n - |unvisited|, |items|);
  }

  /** A node whose own chain and whose descendants' chains reach a root. */
  lemma NodeRooted(items: seq<Record>, node: TreeNode, parentId: Option<string>)
    requires ReachesRoot(items, node.id, |items|)
    requires AllRooted(items, Preorder(node.children, Some(node.id)))
    ensures AllRooted(items, Preorder([node], parentId))
  {
    PreorderSingle(node, parentId);
    assert AllRooted(items, [Slot(node, parentId)]);
    AllRootedAppend(items, [Slot(node, parentId)], Preorder(node.children, Some(node.id)));
  }

  lemma {:induction false} BuildRooted(items: seq<Record>, expanded: set<string>, id: string, unvisited: set<string>, parentId: Option<string>)
    requires Unique(items)
    requires unvisited <= Ids(items)
    requires id in unvisited
    requires PlacedUnder(items, id, parentId)
    requires ParentBound(items, unvisited, parentId)
    ensures AllRooted(items, Preorder([Build(items, expanded, id, unvisited)], parentId))
    decreases |unvisited|, 0
  {
    RootedWithin(items, id, unvisited, parentId);
    KidsPlaced(items, id);
    var kids := SortByPosition(items, IdsWithParent(items, Some(id)));
    var children := BuildList(items, expanded, kids, unvisited - {id});
    BuildListRooted(items, expanded, kids, unvisited - {id}, Some(id));
    var node := Build(items, expanded, id, unvisited);
    assert node == MakeNode(items, expanded, id, children);
    NodeRooted(items, node, parentId);
  }

  lemma {:induction false} BuildListRooted(items: seq<Record>, expanded: set<string>, ids: seq<string>, unvisited: set<string>, parentId: Option<string>)
    requires Unique(items)
    requires unvisited <= Ids(items)
    requires forall x | x in ids :: PlacedUnder(items, x, parentId)
    requires ParentBound(items, unvisited, parentId)
    ensures AllRooted(items, Preorder(BuildList(items, expanded, ids, unvisited), parentId))
    decreases |unvisited|, |ids|
  {
    if ids != [] {
      assert ids[0] in ids;
      assert forall x | x in ids[1..] :: x in ids;
      BuildListRooted(items, expanded, ids[1..], unvisited, parentId);
      if ids[0] in unvisited {
        var head := [Build(items, expanded, ids[0], unvisited)];
        var tail := BuildList(items, expanded, ids[1..], unvisited);
        BuildRooted(items, expanded, ids[0], unvisited, parentId);
        PreorderAppend(head, tail, parentId);
        AllRootedAppend(items, Preorder(head, parentId), Preorder(tail, parentId));
      }
    }
  }

  /** With unique ids, every node of the projection, at any depth, has a
      chain of parents that reaches a null `parent_id` within as many steps
      as there are records: records on a cycle, or below a missing parent,
      never appear. */
  lemma NestedNodesRooted(items: seq<Record>, expanded: set<string>)
    requires Unique(items)
    ensures AllRooted(items, Preorder(Nested(items, expanded), None))
  {
    assert forall x | x in SortByPosition(items, IdsWithParent(items, None)) :: PlacedUnder(items, x, None);
    BuildListRooted(items, expanded, SortByPosition(items, IdsWithParent(items, None)), Ids(items), None);
  }
}
