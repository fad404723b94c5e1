# RAB budget tree

A Dafny model of the budget-tree core of `src/components/RabDummyApp.tsx`.
RAB stands for Rencana Anggaran Biaya, a cost budget. A budget is a flat
list of line items (`RabNode`). Each item has an `id`, a `parentId`, an
optional volume, an optional unit price (`harga_satuan`) and an optional
sibling order key (`urutan`). The parent links make the list a forest.

The model covers:

- the recursive `subtotal`;
- the grand total over the top-level items;
- the amount column of editor and preview rows;
- `toTree`, which groups the list into trees and sorts every level by
  `urutan ?? 0` (`sortDeep`);
- the editor's list operations: `update`, `addChild`, `remove` with its
  recursive `walk`, `move`, and `addRoot`.

Modules:

- `RabTypes` (`types.dfy`): the item record, `filter` by parent, unique ids,
  and acyclicity as the existence of a rank map (every parent ranks above
  its children). `WellFormed` is the invariant the editor keeps: unique
  ids, no cycles, and every named parent exists.
- `Sorting` (`sorting.dfy`): the stable sort by `urutan ?? 0` as a function
  (`SortByKey`), proved sorted, a permutation and stable. It also has an
  in-place insertion sort on an array (`SortByUrutan`) proved equal to that
  function.
- `Subtree` (`subtree.dfy`): `Closure`, an item together with all of its
  descendants. The recursive `Walk` method threads the id set and is
  proved to collect exactly that closure.
- `Totals` (`totals.dfy`): `subtotal`, the grand total and the editor's
  amount column. These are connected to plain sums of line values.
- `TreeBuilder` (`tree.dfy`): `toTree` as an imperative method over an
  index map and arrays. It is proved equal to the value-level `TreeOf`,
  and the grouping and ordering properties are proved about `TreeOf`.
- `Editor` (`editor.dfy`): the list operations as functions on `seq<Node>`,
  as the source builds new arrays with `map`, `filter` and spread. `remove`
  is a method because `walk` fills a mutable set.

Quantities are whole currency units (`int`). `uid()` becomes a
caller-supplied id, fresh where a lemma requires it.

## Model

| member | source | states |
|---|---|---|
| RabTypes.ChildrenOf | src/components/RabDummyApp.tsx:27 | the items kept by `filter(x => x.parentId === parent)` are exactly the list's items with that parent, and unique ids stay unique |
| RabTypes.SameShapeWellFormed | src/components/RabDummyApp.tsx:62 | a list that differs from a well-formed one only outside ids and parents is well formed too |
| RabTypes.PermutationUnique | src/components/RabDummyApp.tsx:75 | a reordering (such as the sorted sibling list) of a list with unique ids has unique ids |
| Sorting.SortByKeySortedPermutation | src/components/RabDummyApp.tsx:39 | sorting by `urutan ?? 0` gives a list ordered by key that is a permutation of the input, with the same members |
| Sorting.SortByKeyStable | src/components/RabDummyApp.tsx:39 | for every key, the items carrying it keep their input order (the engine's sort is stable) |
| Sorting.SortByKeyIsStableSort | src/components/RabDummyApp.tsx:39 | the sort is a stable sort of its input: sorted, a permutation, and order-preserving on equal keys |
| Sorting.InsertInPlace | src/components/RabDummyApp.tsx:39 | one in-place insertion step turns the array into the sorted prefix with the next element inserted, and leaves the rest as it was |
| Sorting.SortByUrutan | src/components/RabDummyApp.tsx:39 | sorting the array in place leaves it holding the stable sort of its old contents |
| Sorting.SortByKeyAppendMax | src/components/RabDummyApp.tsx:58 | an appended item whose key is at least every other key sorts last |
| Sorting.SortedLastIsMax | src/components/RabDummyApp.tsx:66 | the last item of the sorted children (`children.at(-1)`) carries the largest key |
| Subtree.Walk | src/components/RabDummyApp.tsx:70 | `walk(id)` adds exactly `id` and all of its descendants to the set it is given |
| Subtree.ClosureClosedUnderChildren | src/components/RabDummyApp.tsx:70 | a child of anything collected by `walk` is collected too |
| Subtree.ClosureLeast | src/components/RabDummyApp.tsx:70 | the collected set is the least set holding `id` and closed under "is a child of" |
| Subtree.ClosureParent | src/components/RabDummyApp.tsx:70 | everything collected other than the start has its parent collected too |
| Subtree.ParentNotInClosure | src/components/RabDummyApp.tsx:70 | an item's parent is never among its own descendants |
| Subtree.ClosuresMeet | src/components/RabDummyApp.tsx:70 | two subtrees that share an item are nested |
| Subtree.SiblingClosuresDisjoint | src/components/RabDummyApp.tsx:70 | the subtrees of two different siblings share no item |
| Totals.SubtotalIsSubtreeSum | src/components/RabDummyApp.tsx:25-29 | `subtotal(n)` is the sum of the line values of `n` and all of its descendants, each counted once |
| Totals.SubtotalLeaf | src/components/RabDummyApp.tsx:25-29 | an item with no children has its own line value `(volume ?? 0) * (harga_satuan ?? 0)` as subtotal |
| Totals.SumSubtotalsIsClosureSum | src/components/RabDummyApp.tsx:28 | the `reduce` over pairwise disjoint subtrees sums the line values of their union |
| Totals.SiblingsDisjoint | src/components/RabDummyApp.tsx:27 | the subtrees of distinct siblings are pairwise disjoint |
| Totals.SubtotalDependsOnlyOnSubtree | src/components/RabDummyApp.tsx:25-29 | a subtotal changes only if a line value inside that item's subtree changes |
| Totals.UnderSomeRoot | src/components/RabDummyApp.tsx:180 | in a well-formed list every item lies below some item whose parentId is null |
| Totals.GrandTotalIsSumOfLines | src/components/RabDummyApp.tsx:180 | in a well-formed list the grand total is the sum of every item's own line value |
| Totals.GrandTotalEmpty | src/components/RabDummyApp.tsx:119 | the grand total of the empty list is 0 |
| Totals.EditorDisplayRule | src/components/RabDummyApp.tsx:101 | the amount cell is blank exactly when the row has no own value and no children. Otherwise it shows the own value if that is non-zero, else the sum over the row's subtree |
| TreeBuilder.TreeRoots | src/components/RabDummyApp.tsx:36 | the top-level list holds exactly the items whose parentId is null or empty |
| TreeBuilder.TreeKids | src/components/RabDummyApp.tsx:35 | an item's pushed `children` are exactly the items naming its (non-empty) id as parent |
| TreeBuilder.ToTree | src/components/RabDummyApp.tsx:30-44 | the imperative `toTree` returns exactly the value-level forest `TreeOf` |
| TreeBuilder.PushChildren | src/components/RabDummyApp.tsx:34-37 | the `forEach` pass leaves each id's list holding that id's children in list order, and the top-level list holding the top-level items in list order |
| TreeBuilder.GroupingLookup | src/components/RabDummyApp.tsx:35 | each list of the index holds exactly the children of its id, in list order |
| TreeBuilder.SortDeep | src/components/RabDummyApp.tsx:38-42 | sorting a level and then every level below it yields the sorted forest of that level |
| TreeBuilder.DeepenLevel | src/components/RabDummyApp.tsx:40 | recursing into each item of an already sorted level builds each item's tree in that order |
| TreeBuilder.SortLevel | src/components/RabDummyApp.tsx:39 | the in-place sort of one level yields its stable sort |
| TreeBuilder.TreeOfRoots | src/components/RabDummyApp.tsx:36 | the top level of the result is the stable sort of the top-level items, and holds exactly them |
| TreeBuilder.BuildTreeChildren | src/components/RabDummyApp.tsx:35 | each item's `children` are the stable sort of the items naming it as parent, and hold exactly them |
| TreeBuilder.ChildrenExactlyOnce | src/components/RabDummyApp.tsx:35 | with unique ids, each child of an item occurs exactly once among its `children`, and nothing else occurs there |
| TreeBuilder.RootsExactlyOnce | src/components/RabDummyApp.tsx:36 | with unique ids, each top-level item occurs exactly once in the top-level list, and nothing else occurs there |
| TreeBuilder.OccursInBuiltTree | src/components/RabDummyApp.tsx:35 | everything in an item's tree is a descendant of it, and everything but the item itself has an existing parent |
| TreeBuilder.OrphanAbsent | src/components/RabDummyApp.tsx:35 | an item whose non-empty parentId names no item appears nowhere in the result |
| TreeBuilder.OccursChild | src/components/RabDummyApp.tsx:35 | a child of an item placed in a tree is placed in that tree too |
| TreeBuilder.EveryItemPlaced | src/components/RabDummyApp.tsx:30-44 | in a well-formed list every item appears somewhere in the result |
| TreeBuilder.TreeOfLevelsStable | src/components/RabDummyApp.tsx:38-42 | the top level and every `children` list are sorted ascending by `urutan ?? 0`, equal keys keeping list order |
| TreeBuilder.PreviewMatchesEditor | src/components/RabDummyApp.tsx:133 | the preview's amount cell equals the editor's for every item with a non-empty id |
| Editor.UpdateOnlyTarget | src/components/RabDummyApp.tsx:62 | only the item with `n`'s id changes, and only in the fields the patch holds; every other item is kept as it was, in place |
| Editor.UpdateIdempotent | src/components/RabDummyApp.tsx:62 | sending the same patch again changes nothing, unless the patch renames the item |
| Editor.UpdateKeepsShape | src/components/RabDummyApp.tsx:62 | a patch from the row's inputs (no id or parent) keeps positions, ids and parents, and keeps the list well formed |
| Editor.UpdateSubtotals | src/components/RabDummyApp.tsx:62 | editing an item leaves unchanged every subtotal that does not include it, and every subtotal when volume and price are untouched |
| Editor.UpdateGrandTotal | src/components/RabDummyApp.tsx:62 | editing an item moves the grand total by exactly the change in its own line value |
| Editor.NewItem | src/components/RabDummyApp.tsx:66 | a freshly added item is worth 0 and carries the key it is given |
| Editor.AddChildSortsLast | src/components/RabDummyApp.tsx:63-67 | `addChild` appends one "Item baru" under `n`, keyed 1 when `n` has no children and otherwise one past the largest child key, so it is shown last among them |
| Editor.AddChildKeepsInvariant | src/components/RabDummyApp.tsx:63-67 | with a fresh id, `addChild` keeps the list well formed and the grand total unchanged |
| Editor.AddRootAppends | src/components/RabDummyApp.tsx:181-182 | `addRoot` as written appends one zero-valued "Kelompok baru" at the top level; it becomes the last group in list order, keyed 1 when there are no groups and otherwise one past the key of the group that was last in list order |
| Editor.AddRootKeepsInvariant | src/components/RabDummyApp.tsx:181-182 | with a fresh id, `addRoot` as written keeps the list well formed and the grand total unchanged |
| Editor.AddRootAsWrittenNotLast | src/components/RabDummyApp.tsx:182 | if some group's key exceeds the list-order last group's key by more than one, the new group is not shown last |
| Editor.AddRootCounterexample | src/components/RabDummyApp.tsx:182 | groups keyed 2, 3, 1 in list order meet that condition |
| Editor.AddRootAfterLastSortsLast | src/components/RabDummyApp.tsx:181-182 | the corrected `addRoot` appends one "Kelompok baru" at the top level, keyed 1 when there are no groups and otherwise one past the largest group key, so it is shown last |
| Editor.AddRootAfterLastKeepsInvariant | src/components/RabDummyApp.tsx:181-182 | with a fresh id, the corrected `addRoot` keeps the list well formed and the grand total unchanged |
| Editor.Remove | src/components/RabDummyApp.tsx:68-73 | `remove` keeps exactly the items outside the subtree of `n` |
| Editor.RemoveKeepsOrder | src/components/RabDummyApp.tsx:72 | the survivors keep their relative order |
| Editor.RemoveLeavesNoOrphans | src/components/RabDummyApp.tsx:68-73 | no survivor names a removed item as its parent |
| Editor.RemoveWellFormed | src/components/RabDummyApp.tsx:68-73 | removing a subtree keeps the list well formed |
| Editor.RemoveGrandTotal | src/components/RabDummyApp.tsx:68-73 | removing a row lowers the grand total by exactly that row's subtotal |
| Editor.FindIndex | src/components/RabDummyApp.tsx:76 | `findIndex` returns the first position holding the id, or -1 when there is none |
| Editor.Neighbour | src/components/RabDummyApp.tsx:77 | `swapWith`, when there is one, is a sibling of `n` |
| Editor.MoveChangesOnlyKeys | src/components/RabDummyApp.tsx:74-81 | without a neighbour the list is unchanged; otherwise length, order, ids and parents stay and only `urutan` may change |
| Editor.MoveSwapsKeys | src/components/RabDummyApp.tsx:74-81 | with a neighbour, `n` gets `swapWith.urutan ?? idx+dir`, the neighbour gets `n.urutan ?? idx`, every other key stays, and with unique ids the neighbour is not `n` |
| Editor.MoveKeepsSubtotals | src/components/RabDummyApp.tsx:74-81 | moving a row keeps every subtotal |
| Editor.MoveKeepsGrandTotal | src/components/RabDummyApp.tsx:74-81 | moving a row keeps the list well formed and the grand total unchanged |

## Left out

- React rendering, the collapse toggle, the wizard steps and the project header: these are UI and plain field assignment.
- `localStorage` persistence is I/O.
- `fmt`/`toLocaleString` and date formatting are locale and clock concerns.
- `uid()` uses `Math.random`. It becomes a caller-supplied id, and the lemmas that need it require the id to be fresh.
- Floating point: volume and unit price are integers here, so `Number(...)` yielding NaN or fractions (`step="0.01"`) is not modelled. An emptied input is a patch field set to `None`.
- TreeBuilder.ToTree: requires unique ids. With duplicates the source's `Map` keeps one entry per id, the last one written; the model does not capture this.
- TreeBuilder.ToTree: requires an acyclic list. The source's `toTree` would also terminate on a cycle that hangs below no root, since no root reaches it; `subtotal` and `walk` would not.
- TreeBuilder.ToTree: the source pushes the map's entry objects into each other's `children` arrays and sorts those arrays in place. The model keeps the index as a map of sequences and builds the trees as values, so it does not capture the aliasing between map entries and tree nodes.
- TreeBuilder.PreviewMatchesEditor: requires a non-empty id. For an item whose id is the empty string the two views disagree. `toTree` treats a parentId of `""` as top-level, so such an item has no tree children and the preview cell is blank. The editor's `filter(x => x.parentId === n.id)` does find those items as children.
- Editor.MoveSwapsKeys: states that the neighbour differs from `n` only for lists with unique ids. With duplicate ids `swapWith` can carry `n`'s own id.
- Editor.MoveChangesOnlyKeys: does not state where the two rows land in sorted order after the swap. When keys are missing or tied, the new keys need not reverse their display order.
- The per-row `sub` and the preview's `hasKids` are modelled through `Subtotal` and the children of the built tree. The grand total shown in the editor (line 180) and in the preview (line 119) is one function, `GrandTotal`.

## Findings

| source | as written | input that shows it | evidently intended | confidence | as-written member | corrected member |
|---|---|---|---|---|---|---|
| src/components/RabDummyApp.tsx:182 | `addRoot` keys the new group one past the key of the last top-level item in list order | top-level groups a, b, c with keys 2, 3, 1 in list order, reached from keys 1, 2, 3 by moving c up twice; the new group gets key 2 and is shown before b | one past the largest key, i.e. the last group in sorted order, as `addChild` does with its sorted `children` (line 66), so the new group is shown last | not executed | Editor.AddRootAsWrittenNotLast | Editor.AddRootAfterLastSortsLast |
