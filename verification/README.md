# iteration-utilities in Dafny

A functional model of the iteration-utilities TypeScript library, with the
properties its code and tests promise proved about that model. The library
has two parts.

**The tree walker** (`src/treeWalker`, plus `getTreeNodes`) visits trees of
plain records and arrays. Its pieces, as modelled here:

- **Values, classifier and access.** A tree is a finite `Values.Value`:
  - a primitive leaf (`undefined`, `null`, booleans, integers, strings);
  - an opaque built-in (Date, RegExp, Error, Buffer, Set, Map, function);
  - an array, or a record with ordered, distinct keys.

  `isObjectOrArray` accepts exactly arrays and records. Path segments are
  `Key(string)` or `Idx(int)`. The `numberSchema` coercion that array steps
  apply to a key is a parameter (`Ancestors.Coercion`).

  `Access` models three ways of reaching into a tree:
  - a JavaScript property read (`Access.JsGet`): a TypeError on `null` or `undefined`;
  - a property write (`Access.JsPut`);
  - lodash `get`, plus the path-addressed `Locate`, `At` and `SetAt`.
- **Status vocabulary.** The `treeUpdateStatus` tags (`Status`).
- **Merge engine.** `Merger.MergeValues` is `Merger.merge` on values. It
  clears the target if asked, applies the shape-specific step, then always
  applies the `Object.assign` of line 28.
- **Ancestors.** `getAncestor` and the two `ancestors` getters (`Ancestors`).
  A path error is the `Fault` value `PathError(segment, path)`.
- **Contexts.** A context is a view of a position in the tree:
  - `ObjectTraversalContext`, the whole-node context, is `NodeContext.NodeView`,
    with `merge`, `replace`, `parent`, `ancestors` and `children`;
  - `TreeContext`, the per-entry context, is `EntryContext.EntryView`, with the
    value setter, `parent`, `ancestors` and `children`.

  Each mutation returns the new tree and a status, or a `Fault`.
- **BFS.** `treeBFS` is a step function over a frame (`Bfs.Step`) and its
  iteration (`Bfs.Run`):
  - the frame holds the FIFO queue, the container being visited, its
    pending entries, the tree and the trace of views shown so far;
  - a visitor is a function from an entry view to an optional new value
    and a stop flag;
  - setting a value suppresses descent into that entry.
  - `BfsLevels.LevelOrder` is an independent, queue-free listing of the
    entries level by level, and the traversal follows it whenever no value
    is set.
- **Post-order DFS.**
  - `loadDFSStack` is the two-stack loop `PostDfs.LoadLoop`.
  - `MutatingContextProcessor.run` is `Processing.Dispatch`. Its visitor
    returns one action (keep, merge or replace) and a stop flag.
  - `BaseProcessor.run` is `Processing.BaseRun`. Its visitor only answers
    whether it called `break()`.

  The dispatch order is fixed before the first visitor call, so nodes
  that a merge or replace introduces are never visited.
- **getTreeNodes.** `TreeNodes.GetTreeNodes` keeps the nodes that post-order
  traversal shows, optionally without arrays.

**The collection helpers** are pure single-pass algorithms:
`mapFilter`/`mapFilterFirst`, `mapGroups`/`mapPartition`/`mapTupleToObject`,
`pickToArray`, `reduceToMultiObject`/`reduceToObject`, the sliding-window,
all-pairs and two-pointer families, `product`, `mergeSets`,
`partitionItems`, `partitionObjByKey`, `groupByOmit`, `denseRank`, `flatObj`
and `nestedGuard`.

A callback that may return `undefined` becomes a function returning
`Option`, and a JavaScript object becomes a sequence of (key, value) pairs.
The `mapFilter` and `mapFind` of `src/mappers.ts` have the same code as
`mapFilter` and `mapFilterFirst` of `src/mapFilter.ts`. Both are modelled
once, by `MapFilters.MapFilter` and `MapFilters.MapFilterFirst`.

**Where the code and its tests disagree, the model follows the code.** Both
cases below are rows of "## Findings". `Merger.MergeIntended` is the merge the
tests expect, with its properties proved. The contexts and traversals use the
merge as written.
- Merging an array into an array pushes the source and then `Object.assign`s
  it too (`src/treeWalker/treeContext/Merger.ts:16-18`, `:28`). So the first
  `|source|` positions are overwritten. `Merger.MergeArraysExample` shows
  `[2, 1, null, null]` merged with `["val1", "val2"]` giving
  `["val1", "val2", null, null, "val1", "val2"]`. The traversal test expects
  the prefix kept.
- Merging a record into an array appends one `[key, value]` pair per entry
  (`Merger.ts:20-22`, `Merger.MergeRecordIntoArrayExample`). The test
  expects a single object element.

**Trust boundary.** Callbacks, visitors, the numeric coercion, lodash's
`orderBy` criteria and `toString` are inputs, so every property holds for
all of them. Nothing here depends on I/O, clocks or randomness.

## Model

| member | source | states |
|---|---|---|
| Values.IsObjectOrArray | src/treeWalker/internal/utils.ts:4-6 | A value counts as a record or array exactly when it is an array or a plain record. Null, undefined, primitives and the opaque built-ins Date, RegExp, Error, Buffer, Set, Map and functions are all excluded. |
| Values.EntriesShape | src/treeWalker/internal/utils.ts:8-10 | An array's entries are `(index, element)` pairs in index order. A record's entries are `(key, value)` pairs in key order. |
| Values.ValuesAreEntrySeconds | src/treeWalker/internal/utils.ts:12-14 | A container's values are the second components of its entries, in the same order and with the same count. |
| Values.CompositeChildren | src/treeWalker/internal/utils.ts:4-14 | The composite children of a container are exactly its values that are records or arrays. |
| Status.IsSuccessful | src/treeWalker/treeContext/treeUpdateStatus.ts:29-33 | A status is successful exactly when it is one of OK, CONTEXT_MERGED, CONTEXT_REPLACED, CONTEXT_PUSHED and SET_KEY_SUCCESSFUL. |
| Status.Disjoint | src/treeWalker/treeContext/treeUpdateStatus.ts:1-17 | No status name is both a success name and a failure name. |
| Status.Covered | src/treeWalker/treeContext/treeUpdateStatus.ts:19-22 | Every name in the combined vocabulary is the name of some status tag. |
| Status.Partition | src/treeWalker/treeContext/treeUpdateStatus.ts:19-22 | Every tag's name lies in the vocabulary, in exactly one of the success and failure halves. |
| Status.NameInjective | src/treeWalker/treeContext/treeUpdateStatus.ts:1-17 | Different tags have different string values. |
| Numerals.CanonicalIndexOfNat | src/treeWalker/treeContext/Merger.ts:70-72 | The key `Object.assign` writes for array index n reads back as index n. |
| Numerals.NatOfCanonicalIndex | src/treeWalker/treeContext/Merger.ts:70-72 | A key that reads as an array index is the decimal spelling of that index. |
| Access.JsGet | src/nestedGuard.ts:154 | A property read throws exactly on `undefined` and `null`. It returns the child in the slot the key names, and `undefined` when there is no such slot. |
| Access.JsPut | src/treeWalker/treeContext/TreeContext.ts:109-112 | A property write throws a TypeError exactly when the container is a primitive. Otherwise the container keeps its kind. |
| Access.JsPutReadBack | src/treeWalker/treeContext/TreeContext.ts:110 | After a successful write, reading the same key gives back the written value; on an array this holds for keys that are array indices. |
| Access.JsPutFrame | src/treeWalker/treeContext/TreeContext.ts:110 | A write leaves every key with a different property name unchanged. |
| Access.LocateIsLodashGet | src/treeWalker/treeContext/objectTraversalContext.ts:98-100 | On a non-empty path that exists, lodash `get` returns the node at that path. |
| Access.LocateSetAt | src/treeWalker/treeContext/objectTraversalContext.ts:124-128 | After writing at an existing path, that path holds the written value. |
| Access.SetAtSame | src/treeWalker/treeContext/objectTraversalContext.ts:124-128 | Writing back the value already at a path leaves the tree unchanged. |
| Access.AtSetAtDisjoint | src/treeWalker/treeContext/objectTraversalContext.ts:124-128 | For two existing paths `p` and `q` where neither is a prefix of the other, writing at `p` leaves the node at `q` unchanged. |
| Access.AtSetAtBelow | src/treeWalker/treeContext/objectTraversalContext.ts:124-128 | Below the written path, the tree is the written value. |
| Merger.Cleared | src/treeWalker/treeContext/Merger.ts:40-53 | With `removeExisting`, the target is emptied first and keeps its kind: an array gets length 0, a record loses all its keys. |
| Merger.MergeValues | src/treeWalker/treeContext/Merger.ts:8-29 | A merge leaves the target the same kind of container. |
| Merger.MergeArrays | src/treeWalker/treeContext/Merger.ts:16-18 | Array merged into array, without clearing, has length `|t| + |s|`. Positions below `|s|` hold the source, overwritten by line 28. Later positions hold `(t + s)[i]`. |
| Merger.MergeArraysReplacing | src/treeWalker/treeContext/Merger.ts:45-48 | With `removeExisting`, an array merged with an array is exactly the source. |
| Merger.MergeRecordIntoArray | src/treeWalker/treeContext/Merger.ts:20-28 | For a record none of whose keys is an array index, merging it into an array appends one `[key, value]` pair per source entry, in entry order, after clearing if asked. |
| Merger.LastIndexWriteSpec | src/treeWalker/treeContext/Merger.ts:28 | The value `Object.assign` leaves at index `m` is that of the last property named `m`. There is none exactly when no property is named `m`. |
| Merger.AssignIntoArray | src/treeWalker/treeContext/Merger.ts:28 | After `Object.assign` of a property list onto an array, each position holds the last value written under its index, else its old element, else `undefined`. The array grows exactly up to the largest index written. |
| Merger.MergeRecordIntoArrayIndexed | src/treeWalker/treeContext/Merger.ts:20-28 | For any record merged into an array, the pairs are pushed first. Then every key that is an array index writes its value at that position: the last such key wins, and the array is extended with `undefined` holes when needed. |
| Merger.MergeIndexKeyExample | src/treeWalker/treeContext/Merger.ts:20-28 | `[1]` merged with `{"0": "x"}` gives `["x", ["0", "x"]]`. |
| Merger.MergeArrayIntoRecord | src/treeWalker/treeContext/Merger.ts:24-26 | An array merged into a record sets key `"i"` to the i-th element for each index. Every other key keeps its old value. |
| Merger.MergeRecords | src/treeWalker/treeContext/Merger.ts:59-64 | Record merged into record: a key the source has takes the source's value, every other key keeps the target's value, and the key set is the union of both. |
| Merger.MergeRecordsReplacing | src/treeWalker/treeContext/Merger.ts:50-52 | With `removeExisting`, a record merged with a record is exactly the source. |
| Merger.MergeArraysExample | src/treeWalker/treeContext/Merger.ts:16-28 | `[2, 1, null, null]` merged with `["val1", "val2"]` gives `["val1", "val2", null, null, "val1", "val2"]`. |
| Merger.MergeRecordIntoArrayExample | src/treeWalker/treeContext/Merger.ts:20-28 | `[2, 1, null, null]` merged with `{prop1: "prop1Value"}` gives `[2, 1, null, null, ["prop1", "prop1Value"]]`. |
| Merger.MergeIntended | src/tests/objectTraversal.test.ts:468-559 | The merge the tests expect keeps the container kind of the target. |
| Merger.MergeIntendedArrays | src/tests/objectTraversal.test.ts:515-559 | Intended, array into array: the kept target elements stay in front, unchanged, and the source elements follow. |
| Merger.MergeIntendedRecordIntoArray | src/tests/objectTraversal.test.ts:468-512 | Intended, record into array: the kept target elements stay in front, followed by exactly one more element, the source record itself. |
| Merger.MergeIntendedRecordTargets | src/treeWalker/treeContext/Merger.ts:24-28 | Into a record target, the intended merge and the merge as written give the same result. |
| Merger.MergeArraysIntendedIff | src/treeWalker/treeContext/Merger.ts:16-28 | Array into array as written equals the intended merge exactly when each of the first `|s|` positions of `t + s` already holds the source element there. |
| Merger.MergeRecordIntoArrayNeverIntended | src/treeWalker/treeContext/Merger.ts:20-28 | For a record without array-index keys, record into array as written never equals the intended merge. |
| Merger.MergeIntendedTestTrees | src/tests/objectTraversal.test.ts:468-559 | The intended merge gives the two test nodes `[2, 1, null, null, "val1", "val2"]` and `[2, 1, null, null, {prop1: "prop1Value"}]`. |
| Ancestors.Step | src/treeWalker/treeContext/getAncestor.ts:10-20 | One step of the walk. Under an array, a segment that does not coerce to a number is `PathError(segment, path)`; otherwise the element at the coerced index is read. Under anything else the raw segment is read as a property, which fails with a TypeError exactly on `null`/`undefined`. |
| Ancestors.GetAncestor | src/treeWalker/treeContext/getAncestor.ts:3-24 | The result starts with the root. Its length is 1 for the empty path and `|path|` otherwise, so the last segment is never followed. |
| Ancestors.GetAncestorSteps | src/treeWalker/treeContext/getAncestor.ts:9-22 | Each later element of `getAncestor` is one step from the previous element along the corresponding segment. |
| Ancestors.DescendPathError | src/treeWalker/treeContext/getAncestor.ts:13-15 | A failed walk is either a TypeError or a `PathError` that names one of the walked segments together with the whole path. |
| Ancestors.AncestorsAlong | src/treeWalker/treeContext/objectTraversalContext.ts:42-65 | The `ancestors` getter returns `|path|` elements, the first of them the root. |
| Ancestors.AncestorsSteps | src/treeWalker/treeContext/objectTraversalContext.ts:43-58 | Each ancestor is one step from the previous one, and the step along the last segment succeeds too. |
| Ancestors.AncestorsAgree | src/treeWalker/treeContext/TreeContext.ts:154-177 | On a non-empty path, the `ancestors` getter and `getAncestor` give the same result. |
| Ancestors.AncestorsAt | src/treeWalker/treeContext/TreeContext.ts:154-177 | On a path that exists in the tree, `ancestors` succeeds and its i-th element is the node at the first i segments. |
| NodeContext.Children | src/treeWalker/treeContext/objectTraversalContext.ts:38-40 | A node's `children` are exactly its values that are records or arrays. |
| NodeContext.NodeAncestorsAt | src/treeWalker/treeContext/objectTraversalContext.ts:42-65 | For a node that sits at its path, the whole-node context's ancestors are found, and the i-th is the node reached by the path's first i segments. |
| NodeContext.RequireRecord | src/treeWalker/treeContext/objectTraversalContext.ts:144-149 | `getOrThrowRecordContext` fails exactly on an array and otherwise returns the context itself. |
| NodeContext.RequireArray | src/treeWalker/treeContext/objectTraversalContext.ts:151-156 | `getOrThrowArrayContext` fails exactly on a non-array and otherwise returns the context itself. |
| NodeContext.Parent | src/treeWalker/treeContext/objectTraversalContext.ts:94-101 | `parent` is `undefined` at the root (empty path) and the root itself for a one-segment path. |
| NodeContext.ParentAt | src/treeWalker/treeContext/objectTraversalContext.ts:98-100 | At an existing non-root position, `parent` is the record or array at the path minus its last segment. |
| NodeContext.Merge | src/treeWalker/treeContext/objectTraversalContext.ts:86-92 | A non-composite argument gives NOT_CONTEXT_OR_ARRAY and an unchanged tree. A composite one gives CONTEXT_MERGED. When the node sits at its path, the root included, that path then holds the merged node. |
| NodeContext.MergeFrame | src/treeWalker/treeContext/objectTraversalContext.ts:86-92 | For an existing path `q` where neither `q` nor the node's path is a prefix of the other, the node at `q` after a merge is the node there before. |
| NodeContext.Replace | src/treeWalker/treeContext/objectTraversalContext.ts:111-130 | At the root, or when `parent` is falsy, the result is ALREADY_AT_ROOT_OR_EMPTY_PATH. Under an array parent whose last segment does not coerce, it is INVALID_INDEX_TYPE_FOR_ARRAY. In both cases nothing is written. A fault arises only from writing into a primitive parent. |
| NodeContext.ReplaceAt | src/treeWalker/treeContext/objectTraversalContext.ts:124-129 | At an existing non-root position, `replace` writes the value into the parent's slot and returns CONTEXT_REPLACED. |
| NodeContext.ReplaceFrame | src/treeWalker/treeContext/objectTraversalContext.ts:124-128 | For an existing path `q` where neither `q` nor the node's path is a prefix of the other, `replace` succeeds and the node at `q` afterwards is the node there before. |
| EntryContext.Children | src/treeWalker/treeContext/TreeContext.ts:87-89 | An entry context's `children` are exactly the container's values that are records or arrays. |
| EntryContext.Parent | src/treeWalker/treeContext/TreeContext.ts:134-146 | When `isAtRoot` holds (`|path| = 1`), `parent` is the root. On an empty path it is `undefined`. |
| EntryContext.EntryAncestors | src/treeWalker/treeContext/TreeContext.ts:154-177 | The entry context's ancestors have length `|path|` and start at the root. |
| EntryContext.ParentIsContainer | src/treeWalker/treeContext/TreeContext.ts:142-177 | For an entry placed at its path: `parent` is the entry's container, and the last ancestor is the container too. |
| EntryContext.RequireRecordEntry | src/treeWalker/treeContext/TreeContext.ts:218-223 | `getOrThrowRecordContext` fails exactly when the container is an array. |
| EntryContext.RequireArrayEntry | src/treeWalker/treeContext/TreeContext.ts:230-235 | `getOrThrowArrayContext` fails exactly when the container is not an array. |
| EntryContext.SetValue | src/treeWalker/treeContext/TreeContext.ts:109-112 | The value setter fails exactly when the container is a primitive. |
| EntryContext.SetValueAt | src/treeWalker/treeContext/TreeContext.ts:109-112 | For an entry placed at its path, setting the value writes it at the entry's path, and the path then holds it. |
| EntryContext.SetValueFrame | src/treeWalker/treeContext/TreeContext.ts:109-112 | For an existing path `q` where neither `q` nor the entry's path is a prefix of the other, the setter succeeds and the node at `q` afterwards is the node there before. |
| Bfs.TreeBfs | src/treeWalker/BFS.ts:90-95 | A root that is not a record or array is returned unchanged with no visit. |
| Bfs.Step | src/treeWalker/BFS.ts:30-68 | One loop iteration keeps the frame well formed and strictly decreases the remaining work. Finishing with nothing pending reports the current tree, unstopped. |
| Bfs.TreeBfsBasics | src/treeWalker/BFS.ts:36-53 | Every view's path ends in its key, its depth is one less than its path's length, and its container is a record or array. Only the last view may have called `break()`, and the traversal reports stopped exactly when it did. |
| Bfs.TreeBfsRootEntriesFirst | src/treeWalker/BFS.ts:23-36 | The first views are the root's entries, in entry order. |
| Bfs.TreeBfsDepthOrdered | src/treeWalker/BFS.ts:30-68 | For every visitor, including one that sets values, depths never decrease along the trace. |
| Bfs.VisitEffect | src/treeWalker/BFS.ts:38-49 | A visit's view is consistent with the tree. Setting a value changes nothing outside the entry's own slot, and a visit that sets nothing leaves the tree unchanged. |
| Bfs.TreeBfsViewsPlaced | src/treeWalker/BFS.ts:37-47 | On a tree whose records have distinct keys, every view shows its container and its value at their paths in the tree of that moment. The value setter writes exactly at the view's path. |
| Bfs.TreeBfsChained | src/treeWalker/BFS.ts:38-58 | Each view sees the tree as the previous view's action left it. The final tree is the last action's result. |
| Bfs.TreeBfsFresh | src/treeWalker/BFS.ts:55-66 | On a tree whose records have distinct keys, no path is visited twice. A position is visited below an earlier view only if that view set no value and held a record or array. |
| Bfs.TreeBfsPassive | src/treeWalker/BFS.ts:30-68 | A visitor that never sets or breaks leaves the tree unchanged. It is shown as many views as there are entries in all the tree's records and arrays. |
| BfsLevels.DrainIsLevels | src/treeWalker/BFS.ts:30-66 | Working a first-in first-out queue of containers lists exactly the level-by-level order. Each step dequeues a container, lists its entries, and queues their record and array values behind the rest. |
| BfsLevels.TreeBfsLevelOrder | src/treeWalker/BFS.ts:30-68 | A visitor that never sets a value is shown exactly `LevelOrder(data)`: the root's entries, then the entries of each of its records and arrays in the order they were listed, and so on level by level. A visitor that breaks is shown a prefix of that list. |
| BfsLevels.LevelOrderComplete | src/treeWalker/BFS.ts:30-68 | Every existing non-empty path below the data appears in its level order, with the value found there. |
| BfsLevels.TreeBfsPassiveComplete | src/treeWalker/BFS.ts:30-68 | A visitor that neither sets nor breaks is shown every entry below the root, at its path and with its value. Together with `Bfs.TreeBfsFresh`, each entry is shown exactly once. |
| BfsLevels.LevelOrderExample | src/tests/bfs.test.ts:12-21 | On a two-level tree shaped like the test fixture, with its field names `value`, `left` and `right` and its three leaves left open, the root's `value` comes first, then `left` and `right`, then `left.value` before `right.value`. |
| PostDfs.ChildItems | src/treeWalker/postDfs/PostDFS.ts:30-36 | The items pushed for a container are its entries in order, each at the container's path plus its key and one level deeper. |
| PostDfs.LoadLoopStackOrder | src/treeWalker/postDfs/PostDFS.ts:18-37 | The collection loop appends to the processing stack the pre-order of what the retrieval stack holds, taken from its top. |
| PostDfs.DispatchIsPostOrder | src/treeWalker/postDfs/PostDFS.ts:12-39 | `loadDFSStack` is the pre-order of the tree's records and arrays with the latest-pushed sibling first. Read backwards, it is the left-to-right post-order. |
| PostDfs.LoadDfsStackFacts | src/treeWalker/postDfs/PostDFS.ts:12-39 | On a tree whose records have distinct keys, the stack holds each record and array of the tree exactly once at its own path, and no leaf. The root is first, and no node comes before one of its ancestors. |
| PostDfs.PostOrderFacts | src/treeWalker/postDfs/processingStack.ts:31-33 | The post-order lists every record and array below a node, each at its place. Every node comes after all its descendants, and the node itself comes last. |
| PostDfs.PostOrderComplete | src/treeWalker/postDfs/processingStack.ts:31-33 | Every record or array reachable from a node appears in that node's post-order, with its path and depth. |
| Processing.Act | src/treeWalker/treeContext/objectTraversalContext.ts:86-130 | Keeping changes nothing and merging never faults. Only a replace can fault, with a TypeError. |
| Processing.ActIsEffect | src/treeWalker/treeContext/objectTraversalContext.ts:86-130 | For a node in place, every action succeeds with the tree-level effect of its merge or replace. |
| Processing.DispatchOrder | src/treeWalker/postDfs/processingStack.ts:31-54 | Views follow the stack from its top, with path and depth from the popped item. Dispatch stops right after the first view whose visitor broke. Without a fault or a break, every item is shown. |
| Processing.DispatchLive | src/treeWalker/postDfs/processingStack.ts:31-54 | Suppose every stacked path leads to a record or array, and no item is popped before one of its descendants. Then no fault occurs, each view shows the node at its path, and each view sees the tree as the previous action left it. |
| Processing.PostDfsObjectTraversal | src/treeWalker/postDfs/PostDFS.ts:56-58 | A root that is not a record or array gets no visit and is unchanged. |
| Processing.StackIsReversedPostOrder | src/treeWalker/postDfs/PostDFS.ts:60 | The dispatch stack holds only records and arrays, and popping it yields exactly the post-order. |
| Processing.PostDfsObjectTraversalOrder | src/treeWalker/postDfs/PostDFS.ts:52-61 | `postDFSObjectTraversal` shows nodes in left-to-right post-order. It stops right after a break, and otherwise shows every node. |
| Processing.PostDfsObjectTraversalLive | src/treeWalker/postDfs/PostDFS.ts:52-61 | On any tree whose records have distinct keys, and with any visitor, no view faults. Each view shows the node at its path, and the final tree is the chain of the actions taken. |
| Processing.PostDfsObjectTraversalPassive | src/treeWalker/postDfs/PostDFS.ts:52-61 | A visitor that keeps every node and never breaks sees exactly the post-order views of the unchanged tree, one per record and array. |
| Processing.VisitEntries | src/treeWalker/postDfs/processingStack.ts:65-80 | Entries are shown in order until the first one whose call broke. Stopping happens exactly when some call breaks, and otherwise every entry is shown. |
| Processing.BaseRunIsCut | src/treeWalker/postDfs/processingStack.ts:60-83 | `BaseProcessor.run` shows the entry views of the popped containers as one sequence, cut right after the first break. |
| Processing.TreePostDfs | src/treeWalker/postDfs/PostDFS.ts:70-73 | `treePostDFS` on a root that is not a record or array shows nothing. |
| Processing.TreePostDfsIsCut | src/treeWalker/postDfs/PostDFS.ts:70-76 | `treePostDFS` shows the entries of every record and array, containers in post-order and entries in natural order. It stops right after the first break. |
| TreeNodes.Collected | src/getTreeNodes.ts:33-38 | The collection keeps every shown node that is not skipped, and only such nodes. |
| TreeNodes.GetTreeNodesIsPostOrder | src/getTreeNodes.ts:22-41 | `getTreeNodes` is the post-order of the tree's records and arrays, with arrays dropped when `excludeArrays` is set. |
| TreeNodes.GetTreeNodesFacts | src/getTreeNodes.ts:22-43 | Every collected node is a record or array, and no array when arrays are excluded. Every record or array in the tree, the root included, is collected unless excluded. Without exclusion there is one node per position. |
| MapFilters.MapFilterMembers | src/mapFilter.ts:1-14 | The result consists of exactly the callback's defined results. |
| MapFilters.MapFilterAppend | src/mapFilter.ts:5-13 | Map-filtering a concatenation is concatenating the map-filtered parts, so results keep input order. |
| MapFilters.MapFilterTotal | src/mappers.ts:13-26 | When the callback is defined everywhere, the result has one entry per item, in order. |
| MapFilters.MapFilterLoop | src/mapFilter.ts:1-14 | The index loop with `push` computes the recursive definition. |
| MapFilters.Somes | src/mapFilter.ts:9-11 | Dropping the undefined results keeps exactly the defined values. |
| MapFilters.SomesOfCalls | src/mapFilter.ts:1-14 | Collecting the defined results of the calls on a list, one call per element, is `mapFilter` of that list: same results, order and multiplicity. |
| MapFilters.MapFilterFirst | src/mapFilter.ts:16-28 | The result is undefined exactly when every call is. Otherwise it is the result of the first item whose call is defined. |
| MapFilters.MapFilterFirstIsHead | src/mappers.ts:37-49 | `mapFind` / `mapFilterFirst` is the head of `mapFilter`'s result, or undefined when that is empty. |
| Mappers.MapGroups | src/mappers.ts:71-84 | `mapGroups` has the key set of `fns` and maps each key to `mapFilter` of the items with that key's function. |
| Mappers.FirstMatch | src/mappers.ts:120-128 | `match` picks the first function in key order whose result is defined. No match means every function returned undefined. |
| Mappers.MapPartition | src/mappers.ts:106-146 | Each collection holds the results of the items that its function is the first to claim, in input order. The orphans are exactly the unclaimed items, in order, and the sizes of all collections plus the orphans add up to the number of items. |
| Mappers.MapTupleToObject | src/mappers.ts:156-169 | The result's keys are exactly the keys of `enums`. |
| Mappers.MapTupleToObjectLookup | src/mapTupleToObject.ts:1-14 | For every enum key k, `result[k]` is `tuple[enums[k]]`, undefined when out of range, provided the enum keys are distinct. |
| PickToArray.PickToArray | src/pickToArray.ts:11-17 | One result per key, in the keys' order. Each result is defined exactly when the key is present, and a repeated key gives the same value. |
| PickToArray.PickToArrayValues | src/pickToArray.ts:16 | `result[i]` is the object's value under `keys[i]`. |
| Reduce.Assignments | src/reduce.ts:22-24 | The defined callback results are exactly the assignments made. |
| Reduce.GatherLookup | src/reduce.ts:22-31 | The accumulation loop appends, to each key's array, that key's values in input order. |
| Reduce.ReduceToMultiObjectSpec | src/reduce.ts:13-33 | A key is present exactly when some item was mapped to it, and its array lists those items' values in input order. The total length is the number of defined results. |
| Reduce.AssignAllLast | src/reduce.ts:54-61 | Repeated assignment leaves each assigned key with its last value and every other key unchanged. |
| Reduce.ReduceToObjectSpec | src/reduce.ts:45-63 | Each key holds the value of the last item mapped to it, and keys nobody assigned are absent. |
| Reduce.ReduceEmpty | src/reduce.ts:21-53 | Both reductions of an empty collection give `{}`. |
| SlidingWindow.Starts | src/slidingWindow.ts:15 | The k-th window start is `start + k * increments`. Every listed start satisfies `i + windowSize ≤ |items|`, and the next start would not. |
| SlidingWindow.Windows | src/slidingWindow.ts:10-20 | There is one window per start, in order. Each is the slice `items[i..i+windowSize)` and comes with its start index. |
| SlidingWindow.SlidingWindowMap | src/slidingWindow.ts:32-46 | There is one result per window, in start order: the callback on that window, its start and the whole input. |
| SlidingWindow.SlidingWindowFilter | src/slidingWindow.ts:58-73 | The result is `mapFilter` over the calls with the predicate as callback: one entry per accepted call, in start order, so equal windows at different starts each appear. Every accepted window is in it and nothing else is. |
| SlidingWindow.RepeatedWindowsKept | src/slidingWindow.ts:62-72 | `[1, 1, 1]` with an always-true predicate gives the window `[1, 1]` twice. |
| SlidingWindow.SlidingWindowMapFilter | src/slidingWindow.ts:85-101 | The result is `mapFilter` of the callback over the calls: one entry per defined result, in start order. Every defined result is in it and nothing else is. |
| SlidingWindow.DefaultWindows | src/slidingWindow.ts:13-19 | With the defaults, `[1..5]` gives the windows `[1,2]`, `[2,3]`, `[3,4]`, `[4,5]` at starts 0-3. The empty input gives none. |
| AllPairs.PairsSpec | src/allPairs.ts:9-20 | The visited index pairs are exactly those with `i < j < n`, each once, in lexicographic order, `n(n-1)/2` of them. |
| AllPairs.AllPairsMap | src/allPairs.ts:31-46 | `allPairsMap` has `n(n-1)/2` results, the k-th the callback on the k-th pair. |
| AllPairs.AllPairsMapFilter | src/allPairs.ts:62-79 | The result is `mapFilter` of the callback over the loops' index pairs: one entry per defined result, in loop order. Every defined result over the pairs `i < j` is in it and nothing else is. |
| AllPairs.SumOfPairs | src/allPairs.ts:31-46 | Summing `[1,2,3,4]` pairwise gives `[3,4,5,5,6,7]`. |
| TwoPointer.TwoPointerMap | src/twoPointer.ts:31-46 | The nested loop returns exactly `allPairsMap`'s result. |
| TwoPointer.TwoPointerMapFilter | src/twoPointer.ts:62-79 | The nested loop returns exactly `allPairsMapFilter`'s result. |
| TwoPointer.DefinedRow | src/twoPointer.ts:69-76 | One pass of the inner loop appends the defined results of row i, in order. |
| Product.ProductLoop | src/product.ts:11-21 | The nested loop with `push` computes the row-by-row product. |
| Product.ProductLength | src/product.ts:14-18 | `product(a, b)` has `|a| * |b|` tuples. |
| Product.ProductAt | src/product.ts:14-18 | The tuple at `i * |b| + j` is `[a[i], b[j]]`. |
| Product.ProductSound | src/product.ts:14-18 | Every tuple pairs an element of `a` with an element of `b`. |
| Product.ProductComplete | src/product.ts:14-18 | Every pairing of an element of `a` with one of `b` appears. |
| Product.ProductEmpty | src/product.ts:11-21 | The product is empty exactly when one input is. |
| MergeSets.MergeSets | src/mergeSets.ts:9-11 | No sets give the empty set, and one set gives itself. |
| MergeSets.MergeSetsIsUnion | src/mergeSets.ts:7-15 | The result is the union of the input sets: an element is in it exactly when some input set has it. |
| MergeSets.MergeSetsSwap | src/mergeSets.ts:12-14 | Swapping two of the input sets does not change the result. |
| PartitionItems.CollectFirst | src/partitionItems.ts:65-73 | The `attemptPushMatch` strategy puts each item's parse result into the first matching pattern only. |
| PartitionItems.CollectAll | src/partitionItems.ts:75-85 | The `matchAll` strategy puts each item's parse result into every matching pattern, and orphans only unmatched items. |
| PartitionItems.PartitionItemsDefault | src/partitionItems.ts:35-45 | With the flag false, as written, each collection holds the results its pattern is first to claim. The orphans are the unmatched items, and all sizes add up to the number of items. |
| PartitionItems.PartitionItemsPrioritized | src/partitionItems.ts:35-45 | With the flag true, as written, each collection holds every item its pattern parses, whoever matched first. The orphans are the unmatched items. |
| PartitionItems.PrioritizeFlagInverted | src/partitionItems.ts:36 | As written, an item both patterns accept lands in the second pattern's collection only when prioritizing is on. |
| PartitionItems.PartitionItemsIntendedProps | src/partitionItems.ts:13-51 | With the strategies in the documented order, prioritizing puts each item in its first matching pattern only. Not prioritizing puts it in every matching pattern. Orphans are unmatched items either way. |
| PartitionItems.PrioritizeIntended | src/tests/partitionItems.test.ts:75-104 | In the documented order, the ambiguous item reaches the second pattern exactly when prioritizing is off. |
| PartitionItems.PartitionItemsEdges | src/tests/partitionItems.test.ts:58-73 | No items give empty collections and no orphans. No patterns make every item an orphan. |
| PartitionObj.PartitionObjFilters | src/partitionObjByKey.ts:28-38 | `picked` consists of exactly the non-function entries whose key is listed, and `remaining` of exactly the other non-function entries, both in key order. |
| PartitionObj.PartitionObjLookup | src/partitionObjByKey.ts:14-42 | A key is in `picked` exactly when it is listed and its value is not a function, and in `remaining` exactly when it is unlisted and not a function. Values are unchanged. |
| PartitionObj.PartitionObjCovers | src/partitionObjByKey.ts:28-38 | No key is in both halves. Every non-function entry is in one of them, and function entries are in neither. |
| PartitionObj.PartitionObjNoKeys | src/partitionObjByKey.ts:24-38 | With no keys, `picked` is empty and `remaining` is every non-function entry: the whole object when it has no functions. |
| GroupByOmit.Part | src/groupByOmit.ts:33 | A missing key contributes `""` and a string value contributes itself. |
| GroupByOmit.GroupKeyAppend | src/groupByOmit.ts:32-34 | The group key is the concatenation, in `omitKeys` order, of each key's string form. |
| GroupByOmit.GroupKeyCollision | src/groupByOmit.ts:33 | Different parts that concatenate to the same string share a group key: `"x"+"yz"` and `"xy"+"z"`. |
| GroupByOmit.GroupByOmitLookup | src/groupByOmit.ts:28-39 | A group key is present exactly when some item has it. Its group is those items in input order, each without the omitted keys. |
| GroupByOmit.GroupByOmitPlacement | src/groupByOmit.ts:35-38 | Every item, without its omitted keys, is in the group under its own key. |
| GroupByOmit.GroupByOmitTotal | src/groupByOmit.ts:35-38 | The group sizes add up to the number of items. |
| GroupByOmit.OmitLookup | src/groupByOmit.ts:37 | An omitted item lacks every omitted key and keeps every other key's value. |
| DenseRank.OrderBySorted | src/denseRank.ts:34 | The sorted items are a permutation of the input, ordered by the iteratee tuples under the given directions. |
| DenseRank.OrderByStable | src/denseRank.ts:34 | `orderBy` is stable: the items that share a criteria list appear in the output in their input order. |
| DenseRank.CompareZero | src/denseRank.ts:34 | Two criteria tuples compare equal exactly when they are equal. |
| DenseRank.CompareTrans | src/denseRank.ts:34 | The sort order is transitive. |
| DenseRank.RankSorted | src/denseRank.ts:44-56 | The `map` with `lastRank` and `lastValues` stamps each sorted item with its rank: the starting rank plus the number of key changes so far. |
| DenseRank.DenseRank | src/denseRank.ts:21-57 | The output has one item per input item: the i-th sorted item stamped with the i-th rank. |
| DenseRank.RankListSteps | src/denseRank.ts:36-51 | The first rank is `startingRank`. Each next rank is one higher exactly when the key tuple differs from the previous item's, and the same otherwise. |
| DenseRank.DenseRankIff | src/denseRank.ts:44-56 | Ranks never decrease along the output. Two items share a rank exactly when their key tuples are equal. |
| DenseRank.SetFieldLookup | src/denseRank.ts:52-55 | The stamped item has `fieldName` set to the rank and every other key unchanged. |
| FlatObj.PullDownUnchanged | src/flatObj.ts:73-78 | A key holding a primitive, `null` or nothing leaves the object unchanged. |
| FlatObj.SpreadLookup | src/flatObj.ts:75-76 | Spreading a nested object over the rest: nested fields win, the flattened key is gone unless re-supplied, and other keys keep their values. |
| FlatObj.PullDownObject | src/flatObj.ts:72-77 | A key holding a non-array object gives one record: the object without the key, overlaid with the nested fields. |
| FlatObj.PullDownArray | src/flatObj.ts:80-87 | A key holding an array gives one record per element, in order. An object element is overlaid on the rest, and a primitive element becomes the rest plus `key: element`. |
| FlatObj.FlatObjAppend | src/flatObj.ts:60-63 | Flattening an array of objects concatenates the per-object results one level deep. |
| FlatObj.FlatObjSingle | src/flatObj.ts:60-63 | A one-object array flattens to that object's records. |
| Seqs.JoinSplit | src/nestedGuard.ts:147 | Splitting on `"."` and joining the pieces back with `"."` gives the discriminator again. |
| Seqs.SplitJoin | src/nestedGuard.ts:147 | Joining a non-empty list of dot-free keys with `"."` and splitting again gives those keys back. |
| NestedGuard.GuardFaultIffNull | src/nestedGuard.ts:150-155 | The walk throws exactly when it reaches `null` before one of its steps. |
| NestedGuard.GuardIsWalk | src/nestedGuard.ts:150-157 | When the walk does not throw and the compared value is not `undefined`, the answer is whether the value at the end of the path is `===` to it. |
| NestedGuard.GuardAnswer | src/nestedGuard.ts:150-157 | For any compared value, `undefined` included: when the walk does not throw, the answer is `true` exactly when no step of the path starts from `undefined` and the value at the end is `===` to the compared value. |
| NestedGuard.NestedGuardIsWalk | src/nestedGuard.ts:147-157 | For every compared value, `nestedGuard` throws exactly when the discriminator's path meets `null` before a step. Otherwise it answers `true` exactly when no step starts from `undefined` and the value at the path's end is `===` to the compared value. For a defined compared value this is just the `===` test. |
| NestedGuard.NestedTagExample | src/tests/nestedGuard.test.ts:66-71 | `{prop1: {type: "a"}}` with `"prop1.type"` is true for `"a"` and false for `"b"`. |
| NestedGuard.UndefinedExpectedExample | src/nestedGuard.ts:151-153 | Compared with `undefined`, a path whose first step already reaches `undefined` answers false. One whose last step does answers true. |
| NestedGuard.NullMidPathExample | src/nestedGuard.ts:151-155 | A `null` in the middle of the path throws instead of answering. |

## Left out

- Reference identity and aliasing. Trees are finite values without sharing or cycles. A merge's in-place mutation is modelled as the new tree value, so "the target keeps its reference" is not expressible. For the same reason `getTreeNodes`' `Set` deduplicates nothing on such trees, and the model keeps the list.
- Named properties on arrays. The `Object.assign` of `Merger.ts:28` puts record keys that are not array indices on an array target as named properties. Entry enumeration never sees them, and the model drops them. Record keys that are array indices do write elements (`Merger.MergeRecordIntoArrayIndexed`).
- Merger.MergeRecordIntoArray: states the result only for records none of whose keys is an array index. `Merger.MergeRecordIntoArrayIndexed` covers every record: index keys also overwrite or extend the array.
- The array `length` key, prototype keys (`constructor`, …) and JavaScript's reordering of integer-like record keys are not modelled. Record keys are kept in insertion order.
- Property keys that are numbers or symbols. Record keys are strings, and array steps use `Idx`.
- Floating point and `NaN`. Numbers are mathematical integers.
- `Processing.NodeOf`: falls back to the stacked node when the tree no longer holds a record or array at the item's path. `Processing.DispatchLive` shows that this fallback is never taken on traversals from `postDFSObjectTraversal`.
- The BFS change signal is a separate callback in the code. Here, "the visitor set a value" is part of the visitor's answer. A visitor sets at most one value per call, and the post-order visitor performs at most one merge or replace per call.
- Bfs.TreeBfsDepthOrdered: for a visitor that sets values, the order of the views is stated only as non-decreasing depth. The exact level order is proved for visitors that set nothing (`BfsLevels.TreeBfsLevelOrder`). When a value is set, the traversal skips everything below it, so the listing depends on the replies.
- The `treePostDFS` value setter. `BaseProcessor` passes no change callback (`processingStack.ts:67-75` passes seven arguments), so the setter first writes the value into the live container and then throws a TypeError when it calls the missing callback. A visitor that catches the error goes on with a changed tree. The model excludes every use of the setter in `treePostDFS`: its visitor only answers whether it broke.
- `traversalPath` in `MutatingContextProcessor` is written and never read, and is left out.
- `setKey` is declared in the context interfaces with no implementation. Mutating `ctx.context` directly, outside the context API, is not modelled.
- `patternMatch` is not part of this model. Neither are the type-level machinery and the `PathError` message formatting: a path error is the value `PathError(segment, path)`.
- The `numberSchema` coercion is an arbitrary partial function on keys. `Idx` segments always coerce to themselves.
- `orderBy` is modelled as a stable insertion sort by integer-valued criteria in the given directions. lodash's comparison rules for mixed types, and `isEqual` on non-integer values, are not modelled.
- `DenseRank.DenseRank` takes the rank setter as a parameter instead of `fieldName`. `DenseRank.SetField` is the record instance. A single iteratee is a one-element list.
- `GroupByOmit.BaseToString` models lodash `toString` for the model's values: an opaque value prints as `[object Object]`. `omit` with deep paths is not modelled: omitted keys are top-level names.
- `mergeSets` accepts any iterable. The model takes a sequence of sets.
- MergeSets.MergeSets: the result is a mathematical set, so the insertion order in which a JavaScript `Set` iterates (first input first, then elements new in later inputs) is not modelled. Only membership is stated.
- The `*Each` variants of the sliding-window, all-pairs and two-pointer helpers only call their callback. The sequence of calls they make is `SlidingWindow.Windows` and `AllPairs.Pairs`.
- SlidingWindow.Starts: requires `increments > 0` unless the first start already leaves no room for a window. In that case the loop returns `[]` at once for any increment. A zero increment with room for a window loops forever. Negative `start`, `windowSize` and `increments` are not modelled: all three are natural numbers.
- NestedGuard.GuardIsWalk: covers only defined compared values. With `undefined`, the early `return false` and the final `===` can disagree, as `NestedGuard.UndefinedExpectedExample` shows. `NestedGuard.GuardAnswer` states the answer for every compared value. The comparison is only with primitives: `===` on objects is reference identity.
- `JsGet` on a string reads no characters: string indexing is not modelled.

## Findings

| source | as written | input that shows it | evidently intended | confidence | as-written member | corrected member |
|---|---|---|---|---|---|---|
| src/partitionItems.ts:36 | `prioritizeByKeyOrderOnConflict ? matchAll : attemptPushMatch` gives the every-match strategy when prioritizing is requested, and the first-match one when it is not | One item that both patterns accept (src/tests/partitionItems.test.ts:75-104): with the flag true it lands in both collections, with the flag false only in the first | Prioritizing by key order keeps the first matching pattern only. Otherwise every matching pattern gets the item | not executed | PartitionItems.PrioritizeFlagInverted | PartitionItems.PartitionItemsIntendedProps |
| src/treeWalker/treeContext/Merger.ts:16-28 | Array into array pushes the source, then the unconditional `Object.assign(target, source)` of line 28 also writes the source's elements over the target's first positions | `[2, 1, null, null]` merged with `["val1", "val2"]` gives `["val1", "val2", null, null, "val1", "val2"]`; src/tests/objectTraversal.test.ts:515-559 expects `[2, 1, null, null, "val1", "val2"]` | The source is appended and the target's elements are kept | not executed | Merger.MergeArraysExample | Merger.MergeIntendedArrays |
| src/treeWalker/treeContext/Merger.ts:20-28 | Record into array pushes one `[key, value]` pair per entry (`Object.entries`), and line 28 then assigns the record's keys onto the array | `[2, 1, null, null]` merged with `{prop1: "prop1Value"}` gains the element `["prop1", "prop1Value"]`; src/tests/objectTraversal.test.ts:468-512 expects the element `{prop1: "prop1Value"}` | The record itself is appended as one element | not executed | Merger.MergeRecordIntoArrayExample | Merger.MergeIntendedRecordIntoArray |
