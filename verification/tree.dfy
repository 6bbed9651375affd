/**
 * The nested tree the editor hands to, and receives back from, its
 * drag-and-drop layer (`TreeItem` in `dndkit_tree/types.ts`, extended by the
 * editor with the record a node was projected from).
 */
module Tree {
  import opened Wrappers
  import opened Records

  /** A tree node. `collapsed` and `caption` (the node's `label`) are
      optional on nodes the drag layer hands back; `data` is the record the
      node was projected from, absent on nodes the drag layer made up. */
  datatype TreeNode = TreeNode(
    id: string,
    children: seq<TreeNode>,
    collapsed: Option<bool>,
    caption: Option<string>,
    data: Option<Record>)

  /** A node together with the id of the node whose `children` hold it
      (`None` for a node of the top-level list). */
  datatype Slot = Slot(node: TreeNode, parentId: Option<string>)

  /** Every node of `forest`, at any depth, in depth-first pre-order, each
      paired with its enclosing id. */
  function Preorder(forest: seq<TreeNode>, parentId: Option<string>): seq<Slot>
    decreases forest
  {
    if forest == [] then []
    else
      [Slot(forest[0], parentId)]
      + Preorder(forest[0].children, Some(forest[0].id))
      + Preorder(forest[1..], parentId)
  }

  /** The ids of the top-level nodes of `forest`, in order. */
  function TopIds(forest: seq<TreeNode>): (r: seq<string>)
    ensures |r| == |forest|
    ensures forall i | 0 <= i < |forest| :: r[i] == forest[i].id
  {
    if forest == [] then [] else [forest[0].id] + TopIds(forest[1..])
  }

  /** Whether the node counts as expanded: `!item.collapsed` (an absent flag
      counts as not collapsed) and it has at least one child. */
  predicate IsOpen(n: TreeNode)
  {
    n.collapsed != Some(true) && |n.children| > 0
  }

  /** The pre-order of a single tree: its root, then its children's. */
  lemma PreorderSingle(t: TreeNode, parentId: Option<string>)
    ensures Preorder([t], parentId) == [Slot(t, parentId)] + Preorder(t.children, Some(t.id))
  {
    assert [t][1..] == [];
  }

  /** Pre-order distributes over concatenation of sibling lists. */
  lemma {:induction false} PreorderAppend(a: seq<TreeNode>, b: seq<TreeNode>, parentId: Option<string>)
    ensures Preorder(a + b, parentId) == Preorder(a, parentId) + Preorder(b, parentId)
    decreases |a|
  {
    if a == [] {
      assert a + b == b;
    } else {
      assert (a + b)[0] == a[0];
      assert (a + b)[1..] == a[1..] + b;
      PreorderAppend(a[1..], b, parentId);
    }
  }

  /** Which nodes the pre-order lists, and in which order, does not depend
      on the enclosing id given to the top level. */
  lemma {:induction false} PreorderNodes(forest: seq<TreeNode>, p: Option<string>, q: Option<string>)
    ensures |Preorder(forest, p)| == |Preorder(forest, q)|
    ensures forall i | 0 <= i < |Preorder(forest, p)| :: Preorder(forest, p)[i].node == Preorder(forest, q)[i].node
    decreases forest
  {
    if forest != [] {
      PreorderNodes(forest[1..], p, q);
    }
  }
}
