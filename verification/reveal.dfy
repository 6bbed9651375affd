/**
 * What the `expandToId` effect of DndTreeEditor.react.tsx is for: once the
 * ancestors of the target are added to the expanded set, the projection
 * of a well-formed list shows the target and shows open every id
 * `getAncestorIds` returns for it.
 */
module Reveal {
  import opened Wrappers
  import opened Records
  import opened Tree
  import opened Ancestry
  import opened Projection
  import opened RoundTrip

  /** Every id `getAncestorIds` returns for a record of a rooted list is the
      id of a record. */
  lemma AncestorsExist(items: seq<Record>, target: string)
    requires Rooted(items)
    requires target in Ids(items)
    ensures forall a | a in AncestorIds(items, target) :: a in Ids(items)
  {
    var r := AncestorIds(items, target);
    if r != [] {
      var last := |r| - 1;
      var below := if last == 0 then target else r[last - 1];
      assert below in Ids(items);
      assert ById(items)[below].parentId == Some(r[last]);
      ParentStep(items, below, r[last]);
      assert forall i | 0 <= i < |r| :: r[i] in Ids(items) by {
        forall i | 0 <= i < |r|
          ensures r[i] in Ids(items)
        {
          if i < last {
          }
        }
      }
    }
  }

  /** Some slot holds a node with id `id` whose `collapsed` flag is
      `collapsed`. */
  ghost predicate ShownWith(slots: seq<Slot>, id: string, collapsed: Option<bool>)
  {
    exists k | 0 <= k < |slots| :: slots[k].node.id == id && slots[k].node.collapsed == collapsed
  }

  /** On a well-formed list, every record shows up in the projection, and
      open when its id is expanded. */
  lemma Shown(items: seq<Record>, expanded: set<string>, id: string)
    requires Unique(items) && Rooted(items)
    requires id in Ids(items)
    ensures ShownWith(Preorder(Nested(items, expanded), None), id, Some(id !in expanded))
  {
    var slots := Preorder(Nested(items, expanded), None);
    NestedCounts(items, expanded);
    NestedProjected(items, expanded);
    CountPositive(slots, id);
    var k :| 0 <= k < |slots| && slots[k].node.id == id;
    assert ProjectedFrom(items, expanded, slots[k]);
  }

  /** With unique ids, every parent present and no cycle, after the effect
      for a non-empty target id that names a record the projection holds the target's node, and holds
      every id `getAncestorIds` returns for the target as a node that is not
      collapsed. */
  lemma ExpandToReveals(items: seq<Record>, expanded: set<string>, target: string)
    requires Unique(items) && Rooted(items)
    requires target in Ids(items) && target != ""
    ensures var next := ExpandTo(items, expanded, Some(target));
      && ShownWith(Preorder(Nested(items, next), None), target, Some(target !in next))
      && (forall a | a in AncestorIds(items, target) :: ShownWith(Preorder(Nested(items, next), None), a, Some(false)))
  {
    var next := ExpandTo(items, expanded, Some(target));
    AncestorsExist(items, target);
    Shown(items, next, target);
    forall a | a in AncestorIds(items, target)
      ensures ShownWith(Preorder(Nested(items, next), None), a, Some(false))
    {
      assert a in next;
      Shown(items, next, a);
    }
  }
}

/**
 * Where `getAncestorIds` and `nested` disagree about what a parent is. The
 * walk stops at a falsy parent id, so a record whose `parent_id` is the
 * empty string has no ancestors; `nested` attaches it by map lookup, so on a
 * list that has a record with the empty id it sits under that record's node.
 * The `expandToId` effect then leaves the target hidden under a collapsed
 * node, and the default removal of the empty id keeps the record below it.
 */
module EmptyIdParent {
  import opened Wrappers
  import opened Records
  import opened Tree
  import opened Ancestry
  import opened Projection
  import opened RoundTrip
  import Removal

  /** `[{id: "", parent_id: null}, {id: "a", parent_id: ""}]`. */
  function Sample(): seq<Record>
  {
    [Record("", None, None, map[]), Record("a", Some(""), None, map[])]
  }

  lemma SampleLookups()
    ensures Ids(Sample()) == {"", "a"}
    ensures ById(Sample()) == map["" := Sample()[0], "a" := Sample()[1]]
  {
    var items := Sample();
    assert items[0].id == "" && items[1].id == "a";
    assert Ids(items) == {"", "a"};
    ByIdLast(items, 0);
    ByIdLast(items, 1);
  }

  lemma SampleSiblings()
    ensures IdsWithParent(Sample(), None) == [""]
    ensures IdsWithParent(Sample(), Some("")) == ["a"]
    ensures IdsWithParent(Sample(), Some("a")) == []
  {
    assert Sample()[1..][1..] == [];
  }

  /** The sample is well formed: unique ids, and every chain of parents ends
      at a null `parent_id`. */
  lemma SampleWellFormed()
    ensures Unique(Sample()) && Rooted(Sample())
  {
    var items := Sample();
    SampleLookups();
    forall x
      ensures RootedAt(items, x)
    {
      if x == "a" {
        assert ReachesRoot(items, "", 1);
      }
    }
  }

  /** The effect for target "a" adds nothing, and the projection shows "a"
      under the collapsed node of "". */
  lemma EmptyParentEndsWalk()
    ensures AncestorIds(Sample(), "a") == []
    ensures ExpandTo(Sample(), {}, Some("a")) == {}
    ensures Nested(Sample(), {}) ==
              [TreeNode("", [TreeNode("a", [], Some(true), Some("a"), Some(Sample()[1]))], Some(true), Some(""), Some(Sample()[0]))]
  {
    var items := Sample();
    SampleLookups();
    SampleSiblings();
    assert SortByPosition(items, [""]) == [""];
    assert SortByPosition(items, ["a"]) == ["a"];
    assert SortByPosition(items, []) == [];
    assert {"", "a"} - {""} == {"a"};
    assert {"a"} - {"a"} == {};
    assert Build(items, {}, "a", {"a"}) == TreeNode("a", [], Some(true), Some("a"), Some(items[1]));
    assert BuildList(items, {}, ["a"], {"a"}) == [TreeNode("a", [], Some(true), Some("a"), Some(items[1]))];
  }

  /** Removing "" keeps "a": its `isDescendant` walk stops at the falsy
      `parent_id`. What is left names a missing parent, so the projection
      of it is empty. */
  lemma EmptyParentSurvivesRemoval()
    ensures Removal.Acyclic(Sample())
    ensures Removal.RemoveDefault(Sample(), "") == [Sample()[1]]
    ensures Nested([Sample()[1]], {}) == []
  {
    var items := Sample();
    assert Find(items, "") == Some(items[0]);
    assert Find(items, "a") == Some(items[1]);
    assert Removal.ChainEnds(items, items[0].id, |items|);
    assert Removal.ChainEnds(items, items[1].id, |items|);
    assert !Removal.Kept(items, "", items[0]);
    assert Removal.Kept(items, "", items[1]);
    assert Removal.FilterKept(items, "", items[1..]) == [items[1]];
    var rest := [items[1]];
    assert IdsWithParent(rest, None) == [];
  }
}
