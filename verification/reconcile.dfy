/**
 * `handleItemsChange` of DndTreeEditor.react.tsx: the forest the drag layer
 * hands back is flattened into records again (`processItems`), and the
 * expanded set is recomputed from the nodes' flags (`collectExpandedIds`).
 */
module Reconcile {
  import opened Wrappers
  import opened Records
  import opened Tree

  /** The record `processItems` pushes for a node with id `id` under
      `parentId`: the first original record with that id, every field kept
      but `parent_id` rewritten, or a bare `{id, parent_id}` for an id no
      original record carries. */
  function Emit(items: seq<Record>, id: string, parentId: Option<string>): (r: Record)
    ensures r.id == id && r.parentId == parentId
    ensures id in Ids(items) ==> r.caption == Find(items, id).value.caption && r.extra == Find(items, id).value.extra
    ensures id !in Ids(items) ==> r.caption == None && r.extra == map[]
  {
    match Find(items, id)
    case Some(original) => original.(parentId := parentId)
    case None => Record(id, parentId, None, map[])
  }

  /** `processItems(treeItems, parentId)`: one record per node, in
      pre-order, each under the id of the node that encloses it. */
  function ProcessItems(items: seq<Record>, forest: seq<TreeNode>, parentId: Option<string>): (r: seq<Record>)
    ensures |r| == |Preorder(forest, parentId)|
    ensures forall k | 0 <= k < |r| ::
              r[k] == Emit(items, Preorder(forest, parentId)[k].node.id, Preorder(forest, parentId)[k].parentId)
    decreases forest
  {
    if forest == [] then []
    else
      var node := forest[0];
      var head := [Emit(items, node.id, parentId)];
      var below := if |node.children| > 0 then ProcessItems(items, node.children, Some(node.id)) else [];
      var rest := ProcessItems(items, forest[1..], parentId);
      assert |node.children| == 0 ==> Preorder(node.children, Some(node.id)) == [];
      head + below + rest
  }

  /** Some slot of `slots` holds an open node with id `x`. */
  ghost predicate OpenIn(slots: seq<Slot>, x: string)
  {
    exists k | 0 <= k < |slots| :: slots[k].node.id == x && IsOpen(slots[k].node)
  }

  lemma OpenInAppend(a: seq<Slot>, b: seq<Slot>, x: string)
    ensures OpenIn(a + b, x) <==> OpenIn(a, x) || OpenIn(b, x)
  {
    if OpenIn(a + b, x) {
      var k :| 0 <= k < |a + b| && (a + b)[k].node.id == x && IsOpen((a + b)[k].node);
      if k >= |a| {
        assert b[k - |a|] == (a + b)[k];
      }
    }
    if OpenIn(b, x) {
      var k :| 0 <= k < |b| && b[k].node.id == x && IsOpen(b[k].node);
      assert (a + b)[k + |a|] == b[k];
    }
    if OpenIn(a, x) {
      var k :| 0 <= k < |a| && a[k].node.id == x && IsOpen(a[k].node);
      assert (a + b)[k] == a[k];
    }
  }

  /** `collectExpandedIds`: the ids of the nodes, at any depth, that are not
      collapsed and have children. */
  function CollectExpanded(forest: seq<TreeNode>): (r: set<string>)
    ensures forall x :: x in r <==> OpenIn(Preorder(forest, None), x)
    decreases forest
  {
    if forest == [] then {}
    else
      var node := forest[0];
      var here: set<string> := if IsOpen(node) then {node.id} else {};
      var below := CollectExpanded(node.children);
      var rest := CollectExpanded(forest[1..]);
      var pb := Preorder(node.children, Some(node.id));
      var pr := Preorder(forest[1..], None);
      assert Preorder(forest, None) == [Slot(node, None)] + pb + pr;
      PreorderNodes(node.children, Some(node.id), None);
      assert forall x :: OpenIn(pb, x) <==> OpenIn(Preorder(node.children, None), x) by {
        forall x ensures OpenIn(pb, x) <==> OpenIn(Preorder(node.children, None), x) {
          if OpenIn(Preorder(node.children, None), x) {
            var k :| 0 <= k < |pb| && Preorder(node.children, None)[k].node.id == x && IsOpen(Preorder(node.children, None)[k].node);
            assert pb[k].node == Preorder(node.children, None)[k].node;
          }
        }
      }
      assert forall x :: OpenIn([Slot(node, None)], x) <==> x in here by {
        forall x ensures OpenIn([Slot(node, None)], x) <==> x in here {
          if OpenIn([Slot(node, None)], x) {
            var k :| 0 <= k < 1 && [Slot(node, None)][k].node.id == x && IsOpen([Slot(node, None)][k].node);
          }
          if x in here {
            assert [Slot(node, None)][0].node == node;
          }
        }
      }
      assert forall x :: OpenIn(Preorder(forest, None), x) <==> OpenIn([Slot(node, None)], x) || OpenIn(pb, x) || OpenIn(pr, x) by {
        forall x ensures OpenIn(Preorder(forest, None), x) <==> OpenIn([Slot(node, None)], x) || OpenIn(pb, x) || OpenIn(pr, x) {
          OpenInAppend([Slot(node, None)] + pb, pr, x);
          OpenInAppend([Slot(node, None)], pb, x);
        }
      }
      here + below + rest
  }

  /** What `handleItemsChange` hands on: the new record list and the new
      expanded set. */
  datatype Change = Change(items: seq<Record>, expanded: set<string>)

  function HandleItemsChange(items: seq<Record>, forest: seq<TreeNode>): Change
  {
    Change(ProcessItems(items, forest, None), CollectExpanded(forest))
  }

  /** In pre-order every enclosing node comes before what it encloses. */
  lemma {:induction false} PreorderParentsFirst(forest: seq<TreeNode>, parentId: Option<string>)
    ensures forall k | 0 <= k < |Preorder(forest, parentId)| ::
              Preorder(forest, parentId)[k].parentId == parentId
              || exists j | 0 <= j < k :: Some(Preorder(forest, parentId)[j].node.id) == Preorder(forest, parentId)[k].parentId
    decreases forest
  {
    if forest != [] {
      var node := forest[0];
      var p := Preorder(forest, parentId);
      var pb := Preorder(node.children, Some(node.id));
      var pr := Preorder(forest[1..], parentId);
      PreorderParentsFirst(node.children, Some(node.id));
      PreorderParentsFirst(forest[1..], parentId);
      assert p == [Slot(node, parentId)] + pb + pr;
      forall k | 0 <= k < |p|
        ensures p[k].parentId == parentId || exists j | 0 <= j < k :: Some(p[j].node.id) == p[k].parentId
      {
        if 1 <= k < 1 + |pb| {
          assert p[k] == pb[k - 1];
          if pb[k - 1].parentId == Some(node.id) {
            assert Some(p[0].node.id) == p[k].parentId;
          } else {
            var j :| 0 <= j < k - 1 && Some(pb[j].node.id) == pb[k - 1].parentId;
            assert p[j + 1] == pb[j];
          }
        } else if k >= 1 + |pb| {
          var k' := k - 1 - |pb|;
          assert p[k] == pr[k'];
          if pr[k'].parentId != parentId {
            var j :| 0 <= j < k' && Some(pr[j].node.id) == pr[k'].parentId;
            assert p[j + 1 + |pb|] == pr[j];
          }
        }
      }
    }
  }

  /** The records `handleItemsChange` emits are in pre-order: every record
      that names a parent comes after a record carrying that parent's id. */
  lemma ParentsPrecedeChildren(items: seq<Record>, forest: seq<TreeNode>)
    ensures var out := HandleItemsChange(items, forest).items;
      forall k | 0 <= k < |out| && out[k].parentId.Some? ::
        exists j | 0 <= j < k :: out[j].id == out[k].parentId.value
  {
    var out := HandleItemsChange(items, forest).items;
    var p := Preorder(forest, None);
    PreorderParentsFirst(forest, None);
    forall k | 0 <= k < |out| && out[k].parentId.Some?
      ensures exists j | 0 <= j < k :: out[j].id == out[k].parentId.value
    {
      var j :| 0 <= j < k && Some(p[j].node.id) == p[k].parentId;
      assert out[j].id == p[j].node.id;
    }
  }
}
