# DndTreeEditor tree logic, in Dafny

`DndTreeEditor` is a React component for Dash that shows a flat list of
records (`id`, `parent_id`, optional `label`, any other fields) as a
drag-and-drop tree. This project models the pure logic of the component:

- the parent walk `getAncestorIds`, and the `expandToId` effect that uses it
  to add the target's ancestors to the expanded set (`ancestry.dfy`);
- the `nested` projection of the flat list into a forest of `TreeItem`
  nodes (`id`, `children`, `collapsed`, `label`, plus the record as `data`),
  with `sortChildren` ordering every sibling list by each id's first
  position in the list (`tree.dfy`, `projection.dfy`);
- `handleItemsChange`: `processItems`, which flattens the forest handed
  back by the drag layer into records again, and `collectExpandedIds`,
  which recomputes the expanded set (`reconcile.dfy`);
- `handleRemove`: delegation to `onRemove`, or the default filter that
  drops a record and every record whose `isDescendant` walk reaches it
  (`removal.dfy`);
- the selection toggle of `handleTreeClick` (`selection.dfy`).

On top of the operations, two files connect them. `roundtrip.dfy` proves
that on a well-formed list, reconciling the untouched projection gives back
the input records (in pre-order) and the expanded ids that have children.
Well-formed means unique ids, every named parent present, and no cycle.
The other direction does not hold: projecting a reconciled forest is not
the identity, since for example an expanded node without children is
dropped from the expanded set and comes back collapsed. `reveal.dfy`
proves that on a well-formed list, after the `expandToId` effect for a
non-empty target id that names a record, the projection shows the target,
and shows open every id `getAncestorIds` returns for it. The effect does
nothing for an empty target (line 83) or one that names no record
(line 85).

Those ids are not always all the nodes above the target. The walk of
`getAncestorIds` stops at a falsy parent id, so it stops at a `parent_id`
of `""`, while `nested` attaches a record under the record with id `""`
when there is one. `EmptyIdParent.EmptyParentEndsWalk` shows this on the
well-formed list `[{id: "", parent_id: null}, {id: "a", parent_id: ""}]`:
the effect for target `"a"` adds nothing, and `"a"` stays under the
collapsed node of `""`. The walk of `isDescendant` stops at a falsy
`parent_id` too (line 245), so removal is affected the same way.
`EmptyIdParent.EmptyParentSurvivesRemoval` shows that removing `""` from
that list keeps `"a"`, which then names a missing parent and drops out of
the projection.

Records are `Records.Record(id, parentId, caption, extra)`. `parentId` is
`None` for `null`. `caption` is the optional `label`. `extra` holds the
remaining fields. JavaScript truthiness of an optional string is
`Records.Truthy`: present and non-empty. The component looks records up
in two ways, and the model keeps them apart:

- `find`/`findIndex` return the first record with an id: `Records.Find`
  and `Records.FirstIndex`.
- The `Map`s built with `forEach(... set ...)` keep the last record with
  an id: `Records.ById`.

## Model

| member | source | states |
|---|---|---|
| Records.FirstIndex | src/lib/components/DndTreeEditor.react.tsx:132-133 | `findIndex` is -1 exactly when no record has the id, and otherwise a position holding the id with no earlier position holding it |
| Records.Find | src/lib/components/DndTreeEditor.react.tsx:186 | `find` yields nothing exactly when no record has the id, and otherwise a record with that id that no earlier record's id matches |
| Records.ById | src/lib/components/DndTreeEditor.react.tsx:65-66 | the map built by `forEach`/`set` has exactly the ids of the list as keys, and maps each to a record of the list carrying that id |
| Records.ByIdLast | src/lib/components/DndTreeEditor.react.tsx:100-113 | a later `set` overwrites an earlier one: the record kept for an id is the last one carrying it |
| Records.UniqueLookups | src/lib/components/DndTreeEditor.react.tsx:186 | with unique ids, `find`, `findIndex` and the id map all locate the same record |
| Ancestry.WalkIsParentChain | src/lib/components/DndTreeEditor.react.tsx:68-77 | the loop pushes at most `limit - guard + 1` ids, none empty; each is the recorded parent of the one before; it yields nothing exactly when the start is falsy; it stops early only at a falsy parent |
| Ancestry.AncestorIds | src/lib/components/DndTreeEditor.react.tsx:64-79 | at most `items.length + 2` ids; empty exactly when the target is missing or has a falsy parent; starts with the target's parent; each id is a record whose parent is the next id; a result shorter than the bound ends at a missing record or a falsy parent |
| Ancestry.GetAncestorIds | src/lib/components/DndTreeEditor.react.tsx:64-79 | the imperative loop, with its counter and `safetyLimit`, returns exactly the ancestor chain |
| Ancestry.ExpandTo | src/lib/components/DndTreeEditor.react.tsx:82-95 | the effect only adds ids; an id is expanded afterwards exactly when it was before or is an ancestor of a truthy target; a falsy or unknown target, or one without ancestors, changes nothing |
| Ancestry.ExpandToIdempotent | src/lib/components/DndTreeEditor.react.tsx:90-94 | running the effect twice for the same target adds nothing the first run did not |
| Projection.IdsWithParent | src/lib/components/DndTreeEditor.react.tsx:116-127 | a sibling list holds only ids of records with that `parent_id`, and holds every such record's id |
| Projection.IdsWithParentCount | src/lib/components/DndTreeEditor.react.tsx:116-127 | a sibling list holds each id exactly as often as there are records with that id and that `parent_id`, one push per record |
| Projection.SortBy | src/lib/components/DndTreeEditor.react.tsx:130-135 | the sort returns a permutation of its input ordered by the key |
| Projection.NestedProjected | src/lib/components/DndTreeEditor.react.tsx:103-127 | every node, at any depth, stands for an existing record. It is collapsed exactly when not expanded, and carries the last record with its id. Its label is `label \|\| id`. Some record with its id names the enclosing node as parent, or null at the top level |
| Projection.NestedRoots | src/lib/components/DndTreeEditor.react.tsx:119-120 | the top level holds exactly the ids of the records whose `parent_id` is null, with multiplicity, in first-position order |
| Projection.OrphansDropped | src/lib/components/DndTreeEditor.react.tsx:121-125 | with unique ids, a record whose parent does not exist appears at no depth |
| Projection.NestedSiblingsInOrder | src/lib/components/DndTreeEditor.react.tsx:130-142 | every sibling list at every depth, the top level included, is ordered by first position in the input |
| Reconcile.Emit | src/lib/components/DndTreeEditor.react.tsx:186-199 | the emitted record has the node's id and the enclosing id as `parent_id`; it keeps the label and other fields of the first original record with that id, and has none when there is no such record |
| Reconcile.ProcessItems | src/lib/components/DndTreeEditor.react.tsx:183-208 | one record per node, in depth-first pre-order, each emitted for that node under the id of the node enclosing it |
| Reconcile.CollectExpanded | src/lib/components/DndTreeEditor.react.tsx:211-220 | an id is collected exactly when some node at any depth has it, is not collapsed and has children |
| Reconcile.ParentsPrecedeChildren | src/lib/components/DndTreeEditor.react.tsx:183-208 | in the emitted list every record that names a parent comes after a record carrying that parent's id |
| Removal.FilterKept | src/lib/components/DndTreeEditor.react.tsx:241-251 | the filter keeps each record the predicate accepts, as often as it occurs, drops every other, and keeps the input order |
| Removal.RemoveDefault | src/lib/components/DndTreeEditor.react.tsx:241-251 | the default removal keeps exactly the records other than the target that are not descendants of it, in their original order |
| Removal.HandleRemove | src/lib/components/DndTreeEditor.react.tsx:236-261 | with `onRemove` the id is handed over and nothing is filtered; without it the filtered list is emitted |
| Removal.DescendantWalk | src/lib/components/DndTreeEditor.react.tsx:243-248 | when the parent map agrees with the first-match lookup, `isDescendant` holds exactly when the ancestor is among the ids the `getAncestorIds` loop passes through |
| Removal.DescendantIffAncestor | src/lib/components/DndTreeEditor.react.tsx:243-248 | with unique ids, `isDescendant(id, a)` holds exactly when `a` is in `getAncestorIds(id)` |
| Removal.RemovalDropsSubtree | src/lib/components/DndTreeEditor.react.tsx:241-251 | with unique ids and no cycle, a record survives the default removal exactly when it is not the target and the target is not among its ancestors |
| Selection.NextSelection | src/lib/components/DndTreeEditor.react.tsx:302-304 | a falsy click changes nothing; a click on the selected id clears the selection; a click on any other id selects it |
| Selection.ClickTwice | src/lib/components/DndTreeEditor.react.tsx:303 | two clicks on the same node restore the selection when it was that node and clear it otherwise |
| RoundTrip.NestedNodesRooted | src/lib/components/DndTreeEditor.react.tsx:116-127 | with unique ids, every node at any depth has a parent chain of existing records that reaches a null `parent_id` within `items.length` steps, so records on a cycle or under a missing parent never appear |
| RoundTrip.NestedCounts | src/lib/components/DndTreeEditor.react.tsx:98-145 | on a well-formed list every id occurs exactly once in the projection and no other id occurs |
| RoundTrip.EmittedUnchanged | src/lib/components/DndTreeEditor.react.tsx:186-192 | with unique ids, reconciling the untouched projection emits only original records, unchanged, each at its node's position |
| RoundTrip.RoundTripRecords | src/lib/components/DndTreeEditor.react.tsx:178-208 | on a well-formed list, reconciling the untouched projection gives back exactly the input records, each once |
| RoundTrip.RoundTripExpanded | src/lib/components/DndTreeEditor.react.tsx:211-220 | on a well-formed list, reconciling the untouched projection recomputes as expanded exactly the expanded ids of records that have children |
| Reveal.AncestorsExist | src/lib/components/DndTreeEditor.react.tsx:64-79 | on a well-formed list every ancestor id of a record is the id of a record |
| Reveal.Shown | src/lib/components/DndTreeEditor.react.tsx:103-127 | on a well-formed list every record appears in the projection, open exactly when its id is expanded |
| Reveal.ExpandToReveals | src/lib/components/DndTreeEditor.react.tsx:82-95 | on a well-formed list, after the effect for a non-empty target that names a record the projection holds the target, and holds every id `getAncestorIds` returns for it as a node that is not collapsed |
| EmptyIdParent.SampleWellFormed | src/lib/components/DndTreeEditor.react.tsx:98-145 | the list `[{id: "", parent_id: null}, {id: "a", parent_id: ""}]` has unique ids and every parent chain ends at a null `parent_id` |
| EmptyIdParent.EmptyParentSurvivesRemoval | src/lib/components/DndTreeEditor.react.tsx:241-251 | on that list, which has no cycle, the default removal of `""` keeps `{id: "a", parent_id: ""}` because `isDescendant` stops at the falsy `""`, and the projection of what is left is empty |
| EmptyIdParent.EmptyParentEndsWalk | src/lib/components/DndTreeEditor.react.tsx:64-127 | on that list `getAncestorIds("a")` is empty because the walk stops at the falsy `""`, so the effect for `"a"` adds nothing, while `nested` puts `"a"` under the collapsed node of `""` |

The nodes are `Tree.TreeNode`, after `TreeItem` in
src/lib/dndkit_tree/types.ts:4-9 extended with `data` as in
src/lib/components/DndTreeEditor.react.tsx:34-37.

## Left out

- Rendering and the DOM are not modelled: the scroll helper and its effect (lines 147-175), the DOM search of `handleTreeClick` (lines 264-301), the `setProps`/`onSelect` notifications, the selection styling effect and the JSX (lines 305-373). The clicked id is a parameter of `Selection.NextSelection`.
- The drag layer (`SortableTree`, `flattenTree`, `removeChildrenOf` in `dndkit_tree/`) is not part of this model. The forest it hands back is an arbitrary `Tree.TreeNode` list.
- React state, memoisation and callbacks are not modelled, nor is the effect that copies `selectedId` into the internal selection (lines 58-61). Each operation takes the current `items` and expanded set as arguments and returns the new values.
- The `onItemsChange` and `setProps` calls after a change or removal are not modelled. `Reconcile.HandleItemsChange` and `Removal.HandleRemove` return what would be passed to them.
- Field values other than `id`, `parent_id` and `label` are modelled as strings. Ids are strings: the `UniqueIdentifier` numbers of the drag layer are taken as already converted with `String(...)`.
- Projection.Build: on duplicate ids a record can be listed below itself, and then `sortChildren` recurses without end. The model stops descending at an id that already lies on the path from the top, so it yields a finite forest where the component does not terminate. On lists with unique ids whose parent chains all end at a null `parent_id` the pruning never fires: every record appears exactly once (`RoundTrip.NestedCounts`). For lists with unique ids but a missing parent or a cycle the model proves only that every projected node is rooted (`RoundTrip.NestedNodesRooted`), not that no node lost children to the pruning.
- Removal.RemoveDefault: requires `Removal.Acyclic`. `isDescendant` has no cycle guard: it returns true as soon as a parent equals the target (line 246), but it recurses without end when a record's chain of parents enters a cycle that does not pass through the target. `Acyclic` also excludes cyclic lists on which the filter does terminate, such as `[{id: "a", parent_id: "b"}, {id: "b", parent_id: "a"}]` with target `"a"`, where the component returns `[]`; the model says nothing about those. Delegation to `onRemove` (`Removal.HandleRemove`) needs no such requirement.
- RoundTrip.RoundTripRecords: the round trip is stated for lists with unique ids whose parent chains reach a null `parent_id` (`RoundTrip.Rooted`). Without unique ids `find` (first record) and the id map (last record) disagree. Records on a cycle or under a missing parent are dropped from the projection (`RoundTrip.NestedNodesRooted`).
- RoundTrip.RoundTripRecords: equality is stated as equality of multisets. The order of the emitted list is the projection's pre-order (`Reconcile.ProcessItems`), not the input order.
- Reconcile.HandleItemsChange: carries no contract of its own. It only pairs `Reconcile.ProcessItems` with `Reconcile.CollectExpanded`, whose contracts state the behaviour.
