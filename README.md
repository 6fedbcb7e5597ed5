# Tree state engine

A Dafny model of the state engine inside the `Tree` component of react-tree-checkable
(`src/Tree.jsx`). The React rendering is stripped away. What remains is a small state machine
over key lists: the expanded, selected, checked and half-checked keys, the transient check
batch, and the drag fields. Every handler the tree nodes call that changes state is modelled
and proved against a specification. The handlers that only forward an event to a host
callback are not modelled.

- `wrappers.dfy` (`Wrappers`): `Option`, where `None` stands for null or undefined.
- `key_lists.dfy` (`KeyLists`): key arrays read as sets, with the `indexOf`, `arrAdd` and
  `arrDel` helpers. `FlagMap` is the plain object `{}` used as a key-to-flag dictionary. Its
  `Object.keys` order is insertion order.
- `path_codec.dfy` (`PathCodec`): a position is the list of sibling indices from the root,
  written `"0-2-1"`. This module covers its decimal string form (`getPosition`), splitting
  it (`posToArr`) and `isParent`.
- `tree_walk.dfy` (`TreeWalk`): the node tree, the depth-first pre-order walk
  (`traverseTreeNodes`), key resolution (`node.key || pos`), `getDragNodesKeys`, and the
  collection of nodes whose key is listed.
- `check_transaction.dfy` (`CheckTransaction`): the check batch, the per-key last write, and
  the commit loops of `onCheckConductFinished`.
- `expand_path.dfy` (`ExpandPath`): `calcExpandedKeys`.
- `checked_keys.dfy` (`CheckedKeys`): `calcCheckedKeys`.
- `tree.dfy` (`TreeComponent`): the `Tree` class. It holds the state fields, the handlers as
  methods and the flag derivation of `renderTreeNode`.

The helpers imported from `./util` are not among the repository files modelled here. They
are written out as follows, and each reconstruction is stated in its contract:
- `arrAdd` pushes the key unless it is present.
- `arrDel` splices out the first occurrence.
- `isParent(p, q)` holds when `p` is a proper path prefix of `q`. `PathCodec.IsParentEncode`
  proves that this equals the string test "`q` starts with `p` followed by `-`".
- `posToArr` is `split('-')`.
- `traverseTreeNodes` is a pre-order walk whose top-level nodes sit under the root position
  `0`.
- `getDragNodesKeys` returns the keys below the dragged node, then its own key.
- `getStrictlyValue` builds the `{ checked, halfChecked }` pair.

`calcCheckStateConduct` and `calcDropPosition` are taken as given: the first is a function
parameter of `CalcCheckedKeys`, the second the `classified` argument of `OnNodeDragEnter`.

## Model

| member | source | states |
|---|---|---|
| `KeyLists.IndexOf` | src/Tree.jsx:481 | the result is -1 exactly when the key is absent; otherwise it holds the key, and no earlier slot does |
| `KeyLists.ArrAdd` | src/Tree.jsx:489 | the result holds the old keys plus the new one, grows by one only when the key was absent, keeps the old list as its prefix, and stays duplicate-free |
| `KeyLists.ArrDel` | src/Tree.jsx:491 | the first occurrence of the key, if any, is removed (multiset difference); other keys keep their membership; on a duplicate-free list the key is gone |
| `KeyLists.ArrDelUndoesArrAdd` | src/Tree.jsx:488-492 | expanding then collapsing a key that was not expanded gives back the same list |
| `KeyLists.ArrAddUndoesArrDel` | src/Tree.jsx:488-492 | collapsing then expanding a key of a duplicate-free list gives back the same set of keys |
| `KeyLists.Assign` | src/Tree.jsx:419-420 | writing a property sets that key's flag; a new key is appended to the enumeration order and existing ones keep their places |
| `KeyLists.TrueKeys` | src/Tree.jsx:422-423 | the filtered key list holds exactly the keys whose flag is true, each once |
| `PathCodec.NatToString` | src/Tree.jsx:689 | an index renders as a non-empty string of decimal digits |
| `PathCodec.ParseNatToString` | src/Tree.jsx:320 | `Number` reads a rendered index back as the same index |
| `PathCodec.LastDash` | src/Tree.jsx:313 | finds the last delimiter of a position string (or -1), with no delimiter after it |
| `PathCodec.DecodeEncode` | src/Tree.jsx:689 | round trip: splitting and reading back a position string gives the original position |
| `PathCodec.EncodeInjective` | src/Tree.jsx:690 | two positions have the same string only when they are the same position |
| `PathCodec.Encode` | src/Tree.jsx:689 | definition of the position string (`getPosition`): never empty; `DecodeEncode`, `EncodeInjective` and `LastSegmentOfEncode` state its properties |
| `PathCodec.Decode` | src/Tree.jsx:313 | reads a position string back, accepting only strings whose every `-`-separated segment is a non-empty digit string; on every string `getPosition` builds this is `posToArr` followed by `Number` on each segment, and `DecodeEncode` states that it inverts `Encode` |
| `PathCodec.LastSegment` | src/Tree.jsx:313-320 | definition of `posArr[posArr.length - 1]`; `LastSegmentIsSuffix` and `LastSegmentOfEncode` state its properties |
| `PathCodec.LastSegmentIsSuffix` | src/Tree.jsx:313-320 | the last segment is the suffix after the last delimiter, holds no delimiter, and is the whole string when there is no delimiter |
| `PathCodec.ToNumber` | src/Tree.jsx:320 | definition of `Number(segment)` (NaN unless all digits); `LastSegmentOfEncode` states that it reads a position's last segment as its sibling index |
| `PathCodec.IsParent` | src/Tree.jsx:624 | definition of `isParent` as a proper path prefix; `IsParentEncode` and `IsParentTransitive` state its properties |
| `PathCodec.LastSegmentOfEncode` | src/Tree.jsx:313-320 | the last segment of a position string reads as the node's own sibling index |
| `PathCodec.IsParentEncode` | src/Tree.jsx:624 | the string ancestor test ("0-1" is a parent of "0-1-2" but not of "0-10") agrees with the path-prefix test, in both directions |
| `PathCodec.IsParentTransitive` | src/Tree.jsx:624 | a parent of a parent is a parent |
| `TreeWalk.ResolveKey` | src/Tree.jsx:690 | the node's key, else its position string: the key is never empty, and is either the explicit key or the position string |
| `TreeWalk.WalkNode` | src/Tree.jsx:614 | definition of the pre-order visit of one node and its subtree; `WalkNodeWithin`, `WalkNodeDistinct` and `WalkNodeKeys` state its properties |
| `TreeWalk.WalkForest` | src/Tree.jsx:623 | definition of the visit of a run of siblings in order; `WalkForestWithin`, `WalkForestDistinct` and `WalkForestKeys` state its properties |
| `TreeWalk.Walk` | src/Tree.jsx:614 | definition of `traverseTreeNodes` from the root position; `WalkWellFormed` states its properties |
| `TreeWalk.WalkWellFormed` | src/Tree.jsx:612-627 | every visit of a traversal lies below the root, no position is visited twice, and each key is the node's explicit key, else its position string |
| `TreeWalk.WalkNodeWithin` | src/Tree.jsx:614 | every visit under a node is that node or one of its descendants |
| `TreeWalk.WalkForestWithin` | src/Tree.jsx:623 | every visit of a run of siblings lies strictly below their parent, within their index range |
| `TreeWalk.WalkNodeDistinct` | src/Tree.jsx:614 | a walk never visits the same position twice |
| `TreeWalk.WalkForestDistinct` | src/Tree.jsx:623 | the same for a run of siblings |
| `TreeWalk.WalkNodeKeys` | src/Tree.jsx:690 | each visit's key is resolved from its node's own key and position |
| `TreeWalk.WalkForestKeys` | src/Tree.jsx:690 | the same for a run of siblings |
| `TreeWalk.SynthesizedKeysDistinct` | src/Tree.jsx:690 | two visited nodes without an explicit key never share a key |
| `TreeWalk.GetDragNodesKeys` | src/Tree.jsx:218 | the excluded keys are exactly the dragged node's key and the keys of the nodes strictly below it |
| `TreeWalk.FilterByKeys` | src/Tree.jsx:351-355 | the collected nodes are exactly the visited nodes whose key is listed |
| `TreeWalk.CollectNodes` | src/Tree.jsx:439-443 | the traversal loop collects the listed nodes in walk order |
| `CheckTransaction.FinalFlag` | src/Tree.jsx:410-423 | the commit rule for one key: a key the batch never wrote keeps its previous membership, and the batch's final write decides a key it names; `CommitBatch` and `CommitSequential` use it as their reference |
| `CheckTransaction.LastWrite` | src/Tree.jsx:418-421 | the result is the write for the key with no later write for it, or none when the batch never wrote the key |
| `CheckTransaction.KeySetOf` | src/Tree.jsx:410-415 | the map has a true entry for every listed key and no other entries |
| `CheckTransaction.OverlayWrites` | src/Tree.jsx:417-421 | after the batch loop each map holds, for every written key, its last write's flag; unwritten keys keep their old entries |
| `CheckTransaction.CommitBatch` | src/Tree.jsx:406-423 | a key is newly checked iff its last write says checked, or it has no write and was checked before; the same holds for half-checked; each key is listed once |
| `CheckTransaction.LastWriteConcat` | src/Tree.jsx:418-421 | the last write in a concatenated batch comes from the second part when that part writes the key |
| `CheckTransaction.CommitSequential` | src/Tree.jsx:402-423 | committing two batches one after the other equals committing their concatenation once |
| `CheckTransaction.CommitIdempotent` | src/Tree.jsx:402-423 | committing the same batch again changes nothing |
| `CheckTransaction.DistinctWritesCommute` | src/Tree.jsx:418-421 | the order of two writes to different keys does not matter |
| `CheckTransaction.CommitKeepsDisjoint` | src/Tree.jsx:406-423 | if the previous sets were disjoint and no write sets both flags, no key ends up both checked and half-checked |
| `ExpandPath.SomeIsChild` | src/Tree.jsx:624 | true iff some collected position lies strictly below the given one |
| `ExpandPath.CalcExpandedKeys` | src/Tree.jsx:599-632 | no list gives `[]`; without auto-expand the list comes back unchanged; otherwise the result is exactly the keys of the proper ancestors of nodes holding a requested key, each once, or the requested list when there are none |
| `ExpandPath.ClosureUpwardClosed` | src/Tree.jsx:621-627 | in a tree with unique keys, every ancestor of an expanded node is expanded too |
| `ExpandPath.NoMatchNoClosure` | src/Tree.jsx:630-631 | requested keys that name no node leave the closure empty, so the fallback applies |
| `CheckedKeys.ToKeyProps` | src/Tree.jsx:646-662 | only an array or an object converts; an array becomes the checked keys with the half-checked keys undefined |
| `CheckedKeys.CalcCheckedKeys` | src/Tree.jsx:639-676 | there is a result only for a checkable tree given an array or an object; strict mode returns the normalised pair; conduct mode returns both lists from conduction of the checked keys, defaulting to `[]` |
| `CheckedKeys.StrictPassThrough` | src/Tree.jsx:664-667 | in strict mode `{ checked, halfChecked }` comes back verbatim |
| `CheckedKeys.ConductIgnoresHalfChecked` | src/Tree.jsx:669-675 | in conduct mode supplied half-checked keys are discarded: the object gives what the array of its checked keys gives |
| `TreeComponent.Tree.constructor` | src/Tree.jsx:147-159 | the tree starts from the given key lists, with no open batch and no drag; its state is duplicate-free exactly when the given lists are |
| `TreeComponent.Tree.SetUncontrolledState` | src/Tree.jsx:580-592 | exactly the entries whose prop the host does not supply are written; every other state entry is unchanged; duplicate-free written lists keep the state duplicate-free |
| `TreeComponent.Tree.NextSelection` | src/Tree.jsx:339-345 | deselecting removes the key; single-select yields exactly `[eventKey]`; multi-select adds the key and keeps the others; the list stays duplicate-free |
| `TreeComponent.Tree.OnNodeSelect` | src/Tree.jsx:332-369 | the event carries the toggled flag, the next selection and the matching nodes; selection is written back only when uncontrolled; nothing else changes |
| `TreeComponent.Tree.OnNodeExpand` | src/Tree.jsx:475-510 | a collapsed node's key is added and an expanded node's key removed; no other key changes; the list is written back only when uncontrolled; the reload hook re-applies the decided keys |
| `TreeComponent.Tree.OnLoadDataSettled` | src/Tree.jsx:503-506 | settling the load re-applies the snapshot decided at expand time, when the host does not control `expandedKeys`; nothing else changes |
| `TreeComponent.Tree.OnBatchNodeCheck` | src/Tree.jsx:375-396 | a start node opens a fresh batch (origin, flag, empty list); with no open batch an empty one is opened; every call appends exactly its one write |
| `TreeComponent.Tree.OnCheckConductFinished` | src/Tree.jsx:402-472 | the call reports the last-write-wins commit of the batch; checked keys are written back; half-checked keys are written back only in conduct mode; the batch is closed; with no batch nothing changes |
| `TreeComponent.Tree.OnNodeDragStart` | src/Tree.jsx:210-225 | records the dragged node and its excluded keys and collapses it, keeping the state duplicate-free |
| `TreeComponent.Tree.OnNodeDragEnter` | src/Tree.jsx:234-257 | entering the dragged node's own middle band clears the marker, so no node is marked; otherwise the node is marked with the classified position |
| `TreeComponent.Tree.OnNodeDrop` | src/Tree.jsx:298-330 | a drop on an excluded key fires nothing; otherwise the reported offset is the classified position plus the target's sibling index (NaN when never classified), and `dropToGap` holds iff the position is not 0 |
| `TreeComponent.Tree.OnNodeDragEnd` | src/Tree.jsx:289-297 | the drag-over marker is cleared, so no rendered node shows a drag marker |
| `TreeComponent.AddIndex` | src/Tree.jsx:320 | `dropPosition + index`: NaN exactly when the position was never set; null counts as 0 |
| `TreeComponent.Tree.FlagsFor` | src/Tree.jsx:694-703 | `checked` is `isKeyChecked`; at most one drag marker is shown, and only on the drag-over node while a position is set |
| `TreeComponent.Tree.RenderTreeNode` | src/Tree.jsx:683-704 | the child's position is `level` followed by its index, and its last segment reads back as that index (what a drop on the child computes with); an explicit key is kept; an unkeyed child is keyed by its position's string, which lies directly below `level`'s string and decodes back to the position; the child gets that key's flags |

## Left out

- Rendering, `render`, `classNames`, `React.cloneElement`, `propTypes`, `contextTypes` and `getChildContext` only pass values through.
- `getSyncProps`, `componentWillReceiveProps` and the state computation in the JavaScript constructor are not modelled: the Dafny constructor takes the initial key lists as given.
- The 400 ms delayed auto-expand inside `onNodeDragEnter` is timer-driven and left out.
- The `loadData` promise itself is asynchronous and left out. `OnNodeExpand` reports the snapshot that `OnLoadDataSettled` re-applies.
- The mouse enter/leave/context-menu handlers and the drag-over/leave handlers only call host callbacks. The drag-end handler's host callback is left out as well; its state write is `OnNodeDragEnd`.
- `warning(...)` calls are left out, including the expand-state sync check in `onNodeExpand` and the "batch not init" warning.
- React's `setState` merging and batching are left out: state updates are direct field writes.
- The host callbacks (`onSelect`, `onExpand`, `onCheck`, `onDrop`) are not called. Each handler returns the event it would pass, whether or not the callback is present.
- `calcCheckStateConduct` and `calcDropPosition` live in `./util`, which is not part of this model. They are parameters, so the conduction rules and the three-band geometry are not modelled.
- `Object.keys` lists integer-like keys first in ascending order. The model keeps plain insertion order; every property proved is about membership, not order.
- Keys that clash with `Object.prototype` properties (such as `toString`) are not modelled. `checkedKeySet[key]` would read those as truthy.
- `dragNodesKeys` starts as `[]` here; in the source it is undefined until the first drag start.
- `Number` is modelled only on digit strings (anything else is NaN); whitespace, signs and exponents are not modelled.
- `TreeComponent.Tree.OnNodeDragStart`: `getDragNodesKeys` is assumed to walk the dragged node's children from the node's own position; its real traversal start is in `./util`, which is not part of this model.
- `ExpandPath.ClosureUpwardClosed`: stated only for trees whose walked keys are unique, because the closure is defined by key.
