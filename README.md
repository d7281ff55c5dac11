# Editable cost table: grouping and tree-delete transforms

This project models the two data transforms behind an editable table of currency cost records (`src/App.tsx`), and proves facts about them in Dafny.

- **`createNewArr`**: the grouping transform used to render the table. It regroups a flat record list by `currency` so that rows with the same currency sit together. It then annotates each copied row with a `rowSpan`: the first row of a group gets the group size and every other row gets 0. The table uses that span to merge currency cells.
- **`loopDataSourceFilter`**: the delete action. It removes every node whose `id` equals a target from a forest of records, together with its subtree. When a node's filtered `children` come out empty, the node loses the field.

Files and modules:

- `wrappers.dfy` (`Wrappers`): `Option`, which stands in for `undefined`.
- `data_source.dfy` (`DataSource`): the record type `Rec<Id>` (`DataSourceType`, src/App.tsx:8-16).
  - `Id` is abstract, because the code only compares ids.
  - `children` is `Absent` or `Present(nodes)`.
- `grouping.dfy` (`Grouping`): `createNewArr`.
  - `Currencies` is the first reduce: the distinct currencies in order of first appearance.
  - `Members` is the `data.filter`, and `Tag` is the `children.map` that sets spans.
  - `Regroup` is the second reduce, and `Grouped` is the whole function.
  - `CollectCurrencies` and `CreateNewArr` write the same computation as loops over the reduce accumulators (the `push`, then the `concat`).
- `tree_filter.dfy` (`TreeFilter`): `loopDataSourceFilter`.
  - `Prune` is the `map` callback and `Compact` is `.filter(Boolean)`; `Filter` composes them.
  - `Normalize` is an independent reference for the case where nothing is deleted: it replaces each empty `children` array with an absent field.
- `scenarios.dfy` (`Scenarios`): small examples over concrete lists. They cover three cost rows in two currencies, and a two-level tree.

Two points where the behaviour differs from what one might expect:

- One might expect deleting an absent id to return the tree unchanged. The code does not quite do that. `if (item.children)` is true for an empty array, so an empty `children` array is filtered to `[]` and then replaced by `undefined`. `FilterNoHit` states what the code does: the result is `Normalize(data)`, and it equals `data` only when no empty `children` arrays are present.
- One might expect a delete to remove a single node. The code removes every node whose id matches, at every depth. `FilterPreorder` and `FilterReachable` state that.

## Model

| member | source | states |
|---|---|---|
| `Grouping.Currencies` | src/App.tsx:19-26 | The first reduce lists each currency exactly once (no duplicates). A currency is listed exactly when some record has it, and an undefined currency (`None`) counts as one. |
| `Grouping.CurrenciesFirstAppearance` | src/App.tsx:19-26 | The listed currencies appear in the order of their first occurrence in the input. |
| `Grouping.CollectCurrencies` | src/App.tsx:20-26 | The `indexOf`/`push` loop returns exactly `Currencies(data)`, so it is duplicate-free and complete. |
| `Grouping.Members` | src/App.tsx:29 | Every record the filter returns has the requested currency, and the result is no longer than the input. |
| `Grouping.MembersExact` | src/App.tsx:29 | The filter keeps exactly the input records with the requested currency. |
| `Grouping.MembersEmpty` | src/App.tsx:29 | A currency's group is empty exactly when no record has that currency. |
| `Grouping.Tag` | src/App.tsx:31-34 | The map returns as many rows as its group, and each row equals its input record in every field except `rowSpan`. |
| `Grouping.TagSpans` | src/App.tsx:31-34 | For a nonempty group, the spans add up to the group size and only the first row has a nonzero span. |
| `Grouping.Regroup` | src/App.tsx:27-37 | Every row the second reduce emits has a currency from the list. Its other properties are the `Regroup*` lemmas below. |
| `Grouping.Grouped` | src/App.tsx:18-38 | Every row `createNewArr` emits has a currency that some input record has. Its other properties are the `Grouped*` lemmas below. |
| `Grouping.CreateNewArr` | src/App.tsx:18-38 | The loop version returns `Grouped(data)`. Ignoring `rowSpan`, the result is a permutation of the input with the same length. For every currency, the result's rows of that currency are the input rows of that currency, in input order, with spans set. |
| `Grouping.RegroupMembers` | src/App.tsx:27-37 | Take any duplicate-free currency list. If currency c is in the list, the output's rows of c are the tagged group of c; otherwise the output has no rows of c. |
| `Grouping.RegroupBag` | src/App.tsx:27-37 | Ignoring spans, the second reduce returns a permutation of the input records whose currency is in the list. |
| `Grouping.RegroupSpanTotal` | src/App.tsx:27-37 | The spans of the second reduce's output add up to the number of input records whose currency is in the list. |
| `Grouping.RegroupSpans` | src/App.tsx:29-34 | Every output row gets a span. A row that starts a currency block gets the size of that currency's group; every other row gets 0. |
| `Grouping.RegroupContiguous` | src/App.tsx:27-37 | The rows of each currency form one contiguous block. |
| `Grouping.RegroupOrder` | src/App.tsx:27-37 | When every listed currency occurs in the input, the output's blocks follow the order of the list. |
| `Grouping.GroupedMembers` | src/App.tsx:19-37 | For every currency, `createNewArr`'s rows of that currency are all the input records of that currency, in input order. The first has span equal to the group size and the rest have span 0. |
| `Grouping.GroupedPermutation` | src/App.tsx:19-37 | Ignoring `rowSpan`, the output is a permutation of the input, so it has the same length. Every other field, `children` included, is kept. |
| `Grouping.GroupedLayout` | src/App.tsx:19-37 | Groups are contiguous and appear in the order their currency first appears in the input. The first row of each block spans its group and every other row spans 0. |
| `Grouping.GroupedSpanBookkeeping` | src/App.tsx:29-34 | The spans add up to the input length. Each currency that occurs has exactly one row with a nonzero span. A currency that does not occur has no rows at all. |
| `Grouping.GroupedIdempotent` | src/App.tsx:18-38 | Regrouping an already grouped list returns it unchanged, spans included. |
| `TreeFilter.Compact` | src/App.tsx:59 | `.filter(Boolean)` is no longer than its input. Every value it returns is a non-null input value, and every non-null input value is returned. |
| `TreeFilter.Prune` | src/App.tsx:46-58 | The callback returns `null` exactly for a node whose id is the target. For any other node, every field except `children` is unchanged, no empty `children` array remains below it, and no descendant has the target id. |
| `TreeFilter.Filter` | src/App.tsx:41-60 | The result is no longer than the input and has no empty `children` array at any depth. For a defined target, no node at any depth has the target id. |
| `TreeFilter.FilterCons` | src/App.tsx:45-59 | The map-then-filter handles the first root, then the remaining roots. |
| `TreeFilter.FilterAppend` | src/App.tsx:45-59 | Filtering a concatenation of forests equals concatenating the filtered forests. |
| `TreeFilter.FilterEmbeds` | src/App.tsx:45-59 | The result arises from the input by deleting nodes. At every level the surviving siblings keep their relative order and every field except `children`, and no level grows. |
| `TreeFilter.PruneEmbeds` | src/App.tsx:47-55 | A surviving node keeps all its fields except `children`. When its `children` stays present, the new children arise from the old ones by deleting nodes. |
| `TreeFilter.FilterPreorder` | src/App.tsx:45-59 | This statement is per node. The result's nodes at every depth, listed in preorder without `children`, are exactly the input nodes that are not the target and have no ancestor with the target id. They keep the input's order and multiplicity. A hit goes with its whole subtree, and every other node stays, even when another node shares its id. |
| `TreeFilter.PrunePreorder` | src/App.tsx:46-58 | The same node-by-node listing for the callback applied to one node and its subtree. |
| `TreeFilter.FilterReachable` | src/App.tsx:45-59 | This statement is per id. Some node with id x is in the result exactly when the input has a node with id x that is not the target and has no ancestor with the target id. |
| `TreeFilter.PruneReachable` | src/App.tsx:46-58 | The same per-id characterization for one node and its subtree. |
| `TreeFilter.FilterNoHit` | src/App.tsx:47-55 | When the target is undefined or occurs nowhere, the result is the input with every empty `children` array made absent. An input with no empty `children` arrays comes back unchanged. |
| `TreeFilter.PruneNoHit` | src/App.tsx:47-55 | A node containing no hit comes back as that node with its empty `children` arrays made absent. |
| `TreeFilter.FilterIdempotent` | src/App.tsx:41-60 | Deleting the same id again changes nothing. |
| `TreeFilter.FilterCommutes` | src/App.tsx:41-60 | Deleting two ids gives the same forest in either order. |
| `TreeFilter.PruneCommutes` | src/App.tsx:46-58 | The same statement for the callback applied to one node. |
| `Scenarios.CurrenciesExample` | src/App.tsx:19-26 | On rows USD, RUB, USD, the first reduce returns USD then RUB. |
| `Scenarios.MembersExample` | src/App.tsx:29 | On the same rows, the USD filter keeps rows 1 and 3 and the RUB filter keeps row 2. |
| `Scenarios.RegroupExample` | src/App.tsx:27-37 | The second reduce over USD, RUB gives rows 1 (span 2), 3 (span 0), 2 (span 1). |
| `Scenarios.GroupingExample` | src/App.tsx:18-38 | `createNewArr` on those rows gives rows 1 (span 2), 3 (span 0), 2 (span 1). |
| `Scenarios.ChildrenExample` | src/App.tsx:45-59 | Filtering the children `[2, 3]` by id 2 leaves `[3]`. |
| `Scenarios.FilterExample` | src/App.tsx:41-60 | Deleting id 2 from node 1 with children `[2, 3]` leaves node 1 with children `[3]`. |
| `Scenarios.FilterLastChildExample` | src/App.tsx:48-53 | Deleting id 3 from node 1 with children `[3]` leaves node 1 with no `children` field. |

## Left out

- The `App` view component (src/App.tsx:62-235) is not modelled. It holds React state and the editable table, form and card widgets with their callbacks, and the widget library's source is not part of this model.
- The column definitions and `render` callbacks (src/App.tsx:72-168) are not modelled.
  - The Currency and Mini Cost renders (src/App.tsx:94-104, 111-121) pass `row.rowSpan` to widget props.
  - The Action render (src/App.tsx:129-167) wires three links: delete, edit and add. Delete calls `loopDataSourceFilter(dataSource, record.id)` and is that function's only caller. Add calls `addEditRecord` with a `Date.now()` id.
  - The Action render also logs to the console on every render (src/App.tsx:134).
- New-row ids are made with `Date.now()` (src/App.tsx:159, 190). That depends on the clock, so it is not modelled.
- The save button's `console.log` and the `JSON.stringify` preview are left out, because they are I/O and serialisation.
- The required-field rule on the currency column is left out, because the widget library enforces it.
- `React.Key` can be a string or a number. The model uses an abstract `Id` type whose equality holds for equal values, since the code only compares ids. A `NaN` id is not modelled: JavaScript's `!==` treats `NaN` as unequal to itself, so the source can never delete a node whose id is `NaN`.
- `miniCost` and `flat` are modelled as `real`. JavaScript's floating-point details (NaN, -0, rounding) are not modelled; the code never computes on or compares these fields.
- Incoming `rowSpan` and `index` values are modelled as integers. `createNewArr` overwrites `rowSpan`, and neither transform reads `index`.
- Object identity and sharing are not captured, because the model works on values. In the source, `loopDataSourceFilter`'s `return item` (src/App.tsx:55) hands back the input object itself. `createNewArr`'s spread copies (src/App.tsx:32) still share their `children` arrays with the input. `loopDataSourceFilter`'s spread (src/App.tsx:50-53) puts in a new array or `undefined` instead.
- A `children` field that is missing and one set to `undefined` are both `Absent`. The code only tests the field's truth, and `JSON.stringify` drops an `undefined` field.
- `createNewArr` takes an untyped `any` list in the source. The model restricts it to lists of records.
