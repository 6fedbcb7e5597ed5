/**
 * The `Tree` component's state engine: the key lists it keeps (expanded, selected, checked,
 * half-checked), the open check batch and the drag fields, and the handlers that the tree
 * nodes call. Rendering is reduced to the flags each node is given.
 */
module TreeComponent {
  import opened Wrappers
  import opened KeyLists
  import opened PathCodec
  import opened TreeWalk
  import opened CheckTransaction

  /** The state entries a host may control by supplying the prop of the same name. */
  datatype StateField = ExpandedKeys | SelectedKeys | CheckedKeys | HalfCheckedKeys

  /** The props the handlers read; `supplied` names the state props present on the element. */
  datatype Props = Props(
    multiple: bool,
    checkStrictly: bool,
    hasLoadData: bool,
    children: seq<TreeNode>,
    supplied: set<StateField>)

  /** The `dropPosition` state: never set, reset to null, or a classified position. */
  datatype DropPos = Undefined | Null | At(offset: int)

  /** What `calcDropPosition` classifies the cursor position into: -1 before, 0 inside, 1 after. */
  type DropOffset = d: int | -1 <= d <= 1

  datatype SelectEvent = SelectEvent(selectedKeys: seq<Key>, selected: bool, node: NodeProps, selectedNodes: seq<Visit>)

  /** `reload` is the key list re-applied when the `loadData` promise settles, if the hook runs. */
  datatype ExpandEvent = ExpandEvent(expandedKeys: seq<Key>, node: NodeProps, expanded: bool, reload: Option<seq<Key>>)

  /** The first argument of `onCheck`: the key array, or `{ checked, halfChecked }` in strict mode. */
  datatype CheckedValue = KeyList(keys: seq<Key>) | StrictValue(checked: seq<Key>, halfChecked: seq<Key>)

  /**
   * The `onCheck` call: its value and event. In conduct mode the event also carries the
   * half-checked keys and the positions of the checked nodes (kept in `checkedNodes`' visits).
   */
  datatype CheckEvent = CheckEvent(
    value: CheckedValue,
    node: Option<NodeProps>,
    checked: Option<bool>,
    checkedNodes: seq<Visit>,
    halfCheckedKeys: Option<seq<Key>>)

  /** The `onDrop` argument; `dropPosition` None is NaN. */
  datatype DropEvent = DropEvent(
    node: NodeProps,
    dragNode: Option<NodeProps>,
    dragNodesKeys: seq<Key>,
    dropPosition: Option<int>,
    dropToGap: bool)

  /** The state-derived props `renderTreeNode` gives a child. */
  datatype NodeFlags = NodeFlags(
    expanded: bool,
    selected: bool,
    checked: bool,
    halfChecked: bool,
    dragOver: bool,
    dragOverGapTop: bool,
    dragOverGapBottom: bool)

  /** `dropPosition + Number(index)`: undefined gives NaN, null counts as 0. */
  function AddIndex(d: DropPos, index: nat): (r: Option<int>)
    ensures r.None? <==> d.Undefined?
    ensures r.Some? ==> r.value - index == if d.At? then d.offset else 0
  {
    match d
    case Undefined => None
    case Null => Some(index)
    case At(x) => Some(x + index)
  }

  class Tree {
    const props: Props
    var expandedKeys: seq<Key>
    var selectedKeys: seq<Key>
    var checkedKeys: seq<Key>
    var halfCheckedKeys: seq<Key>
    var checkedBatch: Option<Batch>
    var dragNode: Option<NodeProps>
    var dragNodesKeys: seq<Key>
    var dragOverNodeKey: Key
    var dropPosition: DropPos
    var dropNodeKey: Option<Key>

    /** Every key list holds each key at most once. */
    ghost predicate Valid()
      reads this
    {
      NoDup(expandedKeys) && NoDup(selectedKeys) && NoDup(checkedKeys) && NoDup(halfCheckedKeys)
    }

    function Get(f: StateField): seq<Key>
      reads this
    {
      match f
      case ExpandedKeys => expandedKeys
      case SelectedKeys => selectedKeys
      case CheckedKeys => checkedKeys
      case HalfCheckedKeys => halfCheckedKeys
    }

    /** A mounted tree with its initial key lists; no batch is open and no drag has started. */
    constructor (props: Props, expanded: seq<Key>, selected: seq<Key>, checked: seq<Key>, halfChecked: seq<Key>)
      ensures this.props == props
      ensures expandedKeys == expanded && selectedKeys == selected
      ensures checkedKeys == checked && halfCheckedKeys == halfChecked
      ensures checkedBatch.None? && dragNode.None? && dragNodesKeys == []
      ensures dragOverNodeKey == "" && dropPosition.Undefined? && dropNodeKey.None?
      ensures Valid() <==> NoDup(expanded) && NoDup(selected) && NoDup(checked) && NoDup(halfChecked)
    {
      this.props := props;
      expandedKeys, selectedKeys := expanded, selected;
      checkedKeys, halfCheckedKeys := checked, halfChecked;
      checkedBatch := None;
      dragNode, dragNodesKeys := None, [];
      dragOverNodeKey, dropPosition, dropNodeKey := "", Undefined, None;
    }

    method Put(f: StateField, keys: seq<Key>)
      modifies this`expandedKeys, this`selectedKeys, this`checkedKeys, this`halfCheckedKeys
      ensures forall g :: Get(g) == if g == f then keys else old(Get(g))
    {
      match f
      case ExpandedKeys => expandedKeys := keys;
      case SelectedKeys => selectedKeys := keys;
      case CheckedKeys => checkedKeys := keys;
      case HalfCheckedKeys => halfCheckedKeys := keys;
    }

    /** `setUncontrolledState`: writes only the entries whose prop the host does not supply. */
    method SetUncontrolledState(state: map<StateField, seq<Key>>)
      modifies this`expandedKeys, this`selectedKeys, this`checkedKeys, this`halfCheckedKeys
      ensures forall f :: Get(f) == if f in state && f !in props.supplied then state[f] else old(Get(f))
      ensures old(Valid()) && (forall f :: f in state ==> NoDup(state[f])) ==> Valid()
    {
      var newState: map<StateField, seq<Key>> := map[];
      var names := state.Keys;
      while names != {}
        invariant names <= state.Keys
        invariant forall f :: f in newState <==> f in state && f !in names && f !in props.supplied
        invariant forall f :: f in newState ==> newState[f] == state[f]
        decreases names
      {
        var name :| name in names;
        names := names - {name};
        if name !in props.supplied {
          newState := newState[name := state[name]];
        }
      }
      // Write the collected entries; with none collected no entry changes
      var fields := newState.Keys;
      while fields != {}
        invariant fields <= newState.Keys
        invariant forall f :: Get(f) == if f in newState && f !in fields then newState[f] else old(Get(f))
        decreases fields
      {
        var f :| f in fields;
        fields := fields - {f};
        Put(f, newState[f]);
      }
      assert Get(ExpandedKeys) == expandedKeys && Get(SelectedKeys) == selectedKeys;
      assert Get(CheckedKeys) == checkedKeys && Get(HalfCheckedKeys) == halfCheckedKeys;
    }

    /** The keys a select click leaves selected. */
    static function NextSelection(keys: seq<Key>, k: Key, targetSelected: bool, multiple: bool): (r: seq<Key>)
      ensures !targetSelected ==> multiset(r) == multiset(keys) - multiset{k}
      ensures !targetSelected && NoDup(keys) ==> forall x :: x in r <==> x in keys && x != k
      ensures targetSelected && !multiple ==> r == [k]
      ensures targetSelected && multiple ==> forall x :: x in r <==> x in keys || x == k
      ensures NoDup(keys) ==> NoDup(r)
    {
      if !targetSelected then ArrDel(keys, k)
      else if !multiple then [k]
      else ArrAdd(keys, k)
    }

    method OnNodeSelect(node: NodeProps) returns (ev: SelectEvent)
      modifies this`expandedKeys, this`selectedKeys, this`checkedKeys, this`halfCheckedKeys
      ensures ev.selected == !node.selected && ev.node == node
      ensures ev.selectedKeys == NextSelection(old(selectedKeys), node.eventKey, !node.selected, props.multiple)
      ensures ev.selectedNodes == if |ev.selectedKeys| > 0 then FilterByKeys(Walk(props.children), ev.selectedKeys) else []
      ensures selectedKeys == if SelectedKeys in props.supplied then old(selectedKeys) else ev.selectedKeys
      ensures expandedKeys == old(expandedKeys)
      ensures checkedKeys == old(checkedKeys) && halfCheckedKeys == old(halfCheckedKeys)
      ensures old(Valid()) ==> Valid()
    {
      var targetSelected := !node.selected;
      var keys := NextSelection(selectedKeys, node.eventKey, targetSelected, props.multiple);
      var selectedNodes := [];
      if |keys| > 0 {
        selectedNodes := CollectNodes(Walk(props.children), keys);
      }
      SetUncontrolledState(map[SelectedKeys := keys]);
      assert Get(SelectedKeys) == selectedKeys && Get(ExpandedKeys) == expandedKeys;
      assert Get(CheckedKeys) == checkedKeys && Get(HalfCheckedKeys) == halfCheckedKeys;
      ev := SelectEvent(keys, targetSelected, node, selectedNodes);
    }

    method OnNodeExpand(node: NodeProps) returns (ev: ExpandEvent)
      modifies this`expandedKeys, this`selectedKeys, this`checkedKeys, this`halfCheckedKeys
      ensures ev.expanded == !node.expanded && ev.node == node
      ensures !node.expanded ==> ev.expandedKeys == ArrAdd(old(expandedKeys), node.eventKey)
      ensures node.expanded ==> ev.expandedKeys == ArrDel(old(expandedKeys), node.eventKey)
      ensures forall k :: k != node.eventKey ==> (k in ev.expandedKeys <==> k in old(expandedKeys))
      ensures !node.expanded ==> node.eventKey in ev.expandedKeys
      ensures node.expanded && NoDup(old(expandedKeys)) ==> node.eventKey !in ev.expandedKeys
      ensures expandedKeys == if ExpandedKeys in props.supplied then old(expandedKeys) else ev.expandedKeys
      ensures ev.reload == if !node.expanded && props.hasLoadData then Some(ev.expandedKeys) else None
      ensures selectedKeys == old(selectedKeys)
      ensures checkedKeys == old(checkedKeys) && halfCheckedKeys == old(halfCheckedKeys)
      ensures old(Valid()) ==> Valid()
    {
      var keys := expandedKeys;
      var targetExpanded := !node.expanded;
      if targetExpanded {
        keys := ArrAdd(keys, node.eventKey);
      } else {
        keys := ArrDel(keys, node.eventKey);
      }
      SetUncontrolledState(map[ExpandedKeys := keys]);
      assert Get(SelectedKeys) == selectedKeys && Get(ExpandedKeys) == expandedKeys;
      assert Get(CheckedKeys) == checkedKeys && Get(HalfCheckedKeys) == halfCheckedKeys;
      var reload := if targetExpanded && props.hasLoadData then Some(keys) else None;
      ev := ExpandEvent(keys, node, targetExpanded, reload);
    }

    /** The `loadData(...).then(...)` continuation: re-applies the expanded keys decided before the load. */
    method OnLoadDataSettled(keys: seq<Key>)
      modifies this`expandedKeys, this`selectedKeys, this`checkedKeys, this`halfCheckedKeys
      ensures expandedKeys == if ExpandedKeys in props.supplied then old(expandedKeys) else keys
      ensures selectedKeys == old(selectedKeys)
      ensures checkedKeys == old(checkedKeys) && halfCheckedKeys == old(halfCheckedKeys)
      ensures old(Valid()) && NoDup(keys) ==> Valid()
    {
      SetUncontrolledState(map[ExpandedKeys := keys]);
      assert Get(SelectedKeys) == selectedKeys && Get(ExpandedKeys) == expandedKeys;
      assert Get(CheckedKeys) == checkedKeys && Get(HalfCheckedKeys) == halfCheckedKeys;
    }

    /**
     * `onBatchNodeCheck`: a start node opens a fresh batch; a write with no open batch opens
     * an empty one (the source warns); either way the write is appended.
     */
    method OnBatchNodeCheck(key: Key, checked: bool, halfChecked: bool, startNode: Option<NodeProps>)
      modifies this`checkedBatch
      ensures checkedBatch.Some?
      ensures startNode.Some? ==>
                checkedBatch.value == Batch(startNode, Some(checked), [Write(key, checked, halfChecked)])
      ensures startNode.None? && old(checkedBatch).None? ==>
                checkedBatch.value == Batch(None, None, [Write(key, checked, halfChecked)])
      ensures startNode.None? && old(checkedBatch).Some? ==>
                checkedBatch.value == old(checkedBatch).value.(list := old(checkedBatch).value.list + [Write(key, checked, halfChecked)])
    {
      if startNode.Some? {
        checkedBatch := Some(Batch(startNode, Some(checked), []));
      }
      // A write that arrives with no open batch opens an empty one
      if checkedBatch.None? {
        checkedBatch := Some(Batch(None, None, []));
      }
      var batch := checkedBatch.value;
      checkedBatch := Some(batch.(list := batch.list + [Write(key, checked, halfChecked)]));
    }

    /**
     * `onCheckConductFinished`: commits the batch over the previous checked and half-checked
     * keys, writes the checked keys (and, in conduct mode, the half-checked keys) back, builds
     * the `onCheck` call and closes the batch. With no open batch the source fails reading its
     * list (None here) before changing anything.
     */
    method OnCheckConductFinished() returns (ev: Option<CheckEvent>)
      modifies this`checkedBatch, this`expandedKeys, this`selectedKeys, this`checkedKeys, this`halfCheckedKeys
      ensures old(checkedBatch).None? ==> ev.None? && checkedBatch.None?
      ensures old(checkedBatch).Some? ==> ev.Some? && checkedBatch.None?
      ensures ev.Some? ==> CommittedAs(ev.value, old(checkedKeys), old(halfCheckedKeys), old(checkedBatch).value)
      ensures ev.Some? ==>
                checkedKeys == if CheckedKeys in props.supplied then old(checkedKeys) else CheckedOf(ev.value)
      ensures ev.Some? ==>
                halfCheckedKeys == if props.checkStrictly || HalfCheckedKeys in props.supplied
                                   then old(halfCheckedKeys) else HalfCheckedOf(ev.value)
      ensures ev.Some? ==> (ev.value.value.StrictValue? <==> props.checkStrictly)
      ensures ev.Some? ==> (ev.value.halfCheckedKeys.Some? <==> !props.checkStrictly)
      ensures ev.None? ==> checkedKeys == old(checkedKeys) && halfCheckedKeys == old(halfCheckedKeys)
      ensures expandedKeys == old(expandedKeys) && selectedKeys == old(selectedKeys)
      ensures old(Valid()) ==> Valid()
    {
      if checkedBatch.None? {
        return None;
      }
      var batch := checkedBatch.value;
      var newCheckedKeys, newHalfCheckedKeys := CommitBatch(checkedKeys, halfCheckedKeys, batch.list);
      var checkedNodes := CollectNodes(Walk(props.children), newCheckedKeys);
      var event;
      if props.checkStrictly {
        event := CheckEvent(StrictValue(newCheckedKeys, newHalfCheckedKeys), batch.treeNode, batch.checked, checkedNodes, None);
        SetUncontrolledState(map[CheckedKeys := newCheckedKeys]);
      } else {
        event := CheckEvent(KeyList(newCheckedKeys), batch.treeNode, batch.checked, checkedNodes, Some(newHalfCheckedKeys));
        SetUncontrolledState(map[CheckedKeys := newCheckedKeys, HalfCheckedKeys := newHalfCheckedKeys]);
      }
      assert Get(SelectedKeys) == selectedKeys && Get(ExpandedKeys) == expandedKeys;
      assert Get(CheckedKeys) == checkedKeys && Get(HalfCheckedKeys) == halfCheckedKeys;
      checkedBatch := None;
      ev := Some(event);
    }

    /** The checked keys an `onCheck` call reports. */
    static function CheckedOf(e: CheckEvent): seq<Key> {
      match e.value
      case KeyList(ks) => ks
      case StrictValue(c, _) => c
    }

    /** The half-checked keys an `onCheck` call reports. */
    static function HalfCheckedOf(e: CheckEvent): seq<Key> {
      match e.value
      case StrictValue(_, h) => h
      case KeyList(_) => e.halfCheckedKeys.GetOr([])
    }

    /**
     * The call reports the commit of `batch` over `checked` and `halfChecked`: last write per key
     * wins, unwritten keys keep their membership, each key is listed once, and the checked
     * nodes are the walked nodes whose key is checked.
     */
    ghost predicate CommittedAs(e: CheckEvent, checked: seq<Key>, halfChecked: seq<Key>, batch: Batch)
      reads this
    {
      && e.node == batch.treeNode && e.checked == batch.checked
      && NoDup(CheckedOf(e)) && NoDup(HalfCheckedOf(e))
      && (forall k :: k in CheckedOf(e) <==> FinalFlag(checked, batch.list, false, k))
      && (forall k :: k in HalfCheckedOf(e) <==> FinalFlag(halfChecked, batch.list, true, k))
      && e.checkedNodes == FilterByKeys(Walk(props.children), CheckedOf(e))
    }

    /**
     * `onNodeDragStart`: remembers the dragged node and the keys it may not be dropped on
     * (itself and everything below it) and collapses it. The source sets `expandedKeys`
     * directly, so the collapse applies even when the host controls that prop.
     */
    method OnNodeDragStart(node: NodeProps)
      modifies this`dragNode, this`dragNodesKeys, this`expandedKeys
      ensures dragNode == Some(node)
      ensures dragNodesKeys == GetDragNodesKeys(node)
      ensures expandedKeys == ArrDel(old(expandedKeys), node.eventKey)
      ensures old(Valid()) ==> Valid()
    {
      var collapsed := ArrDel(expandedKeys, node.eventKey);
      assert NoDup(expandedKeys) ==> NoDup(collapsed);
      expandedKeys := collapsed;
      dragNode := Some(node);
      dragNodesKeys := GetDragNodesKeys(node);
    }

    /**
     * `onNodeDragEnd`: clears the drag-over marker, so no rendered node (every rendered key is
     * non-empty) shows a drag marker any more.
     */
    method OnNodeDragEnd()
      modifies this`dragOverNodeKey
      ensures dragOverNodeKey == ""
      ensures forall k :: k != "" ==> !DragMarked(FlagsFor(k))
    {
      dragOverNodeKey := "";
    }

    /**
     * `onNodeDragEnter` with the position `calcDropPosition` classified: dragging over the
     * dragged node's own middle band clears the drag-over marker; anything else marks the
     * node. With no drag started the source fails reading the dragged node (false here).
     */
    method OnNodeDragEnter(node: NodeProps, classified: DropOffset) returns (ok: bool)
      modifies this`dragOverNodeKey, this`dropPosition
      ensures ok <==> old(dragNode).Some?
      ensures !ok ==> dragOverNodeKey == old(dragOverNodeKey) && dropPosition == old(dropPosition)
      ensures ok && old(dragNode).value.eventKey == node.eventKey && classified == 0 ==>
                dragOverNodeKey == "" && dropPosition == Null &&
                forall k :: !DragMarked(FlagsFor(k))
      ensures ok && !(old(dragNode).value.eventKey == node.eventKey && classified == 0) ==>
                dragOverNodeKey == node.eventKey && dropPosition == At(classified) &&
                DragMarked(FlagsFor(node.eventKey))
    {
      if dragNode.None? {
        return false;
      }
      ok := true;
      if dragNode.value.eventKey == node.eventKey && classified == 0 {
        dragOverNodeKey, dropPosition := "", Null;
        return;
      }
      dragOverNodeKey, dropPosition := node.eventKey, At(classified);
    }

    /**
     * `onNodeDrop`: clears the drag-over marker and records the drop key; a drop on the dragged
     * node or below it fires nothing, any other reports the drop offset and whether it is a gap.
     */
    method OnNodeDrop(node: NodeProps) returns (ev: Option<DropEvent>)
      modifies this`dragOverNodeKey, this`dropNodeKey
      ensures dragOverNodeKey == "" && dropNodeKey == Some(node.eventKey)
      ensures ev.None? <==> node.eventKey in dragNodesKeys
      ensures ev.Some? ==> ev.value.node == node && ev.value.dragNode == dragNode
      ensures ev.Some? ==> ev.value.dragNodesKeys == dragNodesKeys
      ensures ev.Some? ==> (ev.value.dropToGap <==> dropPosition != At(0))
      ensures ev.Some? && dropPosition.At? ==>
                ev.value.dropPosition == Some(dropPosition.offset + node.pos[|node.pos| - 1])
      ensures ev.Some? && dropPosition.Null? ==> ev.value.dropPosition == Some(node.pos[|node.pos| - 1])
      ensures ev.Some? && dropPosition.Undefined? ==> ev.value.dropPosition.None?
    {
      dragOverNodeKey, dropNodeKey := "", Some(node.eventKey);
      if IndexOf(dragNodesKeys, node.eventKey) != -1 {
        return None;
      }
      var index := ToNumber(LastSegment(Encode(node.pos)));
      LastSegmentOfEncode(node.pos);
      var offset := if index.Some? then AddIndex(dropPosition, index.value) else None;
      ev := Some(DropEvent(node, dragNode, dragNodesKeys, offset, dropPosition != At(0)));
    }

    /** The flags `renderTreeNode` derives for the child with key `key`. */
    function FlagsFor(key: Key): (f: NodeFlags)
      reads this
      ensures f.checked <==> key in checkedKeys
      ensures DragMarked(f) ==> key == dragOverNodeKey && dropPosition.At?
      ensures !(f.dragOver && f.dragOverGapTop) && !(f.dragOver && f.dragOverGapBottom)
      ensures !(f.dragOverGapTop && f.dragOverGapBottom)
    {
      NodeFlags(
        key in expandedKeys,
        key in selectedKeys,
        IndexOf(checkedKeys, key) != -1,
        key in halfCheckedKeys,
        dragOverNodeKey == key && dropPosition == At(0),
        dragOverNodeKey == key && dropPosition == At(-1),
        dragOverNodeKey == key && dropPosition == At(1))
    }

    /**
     * `renderTreeNode(child, index, level)`: the child's key, flags and position. `level` is the
     * position of the node whose children are rendered, the root `[0]` (the default 0) for the top
     * level; the child's position is `level` followed by `index`, and a child without an explicit
     * key is keyed by that position's string. The position is the `pos` a drop on the child reads,
     * and its last segment gives back `index`.
     */
    function RenderTreeNode(child: TreeNode, index: nat, level: Position): (r: (Key, NodeFlags, Position))
      reads this
      ensures r.2 == level + [index]
      ensures ToNumber(LastSegment(Encode(r.2))) == Some(index)
      ensures child.key.Some? && child.key.value != "" ==> r.0 == child.key.value
      ensures child.key.GetOr("") == "" ==>
                r.0 == Encode(r.2) && IsParentString(Encode(level), r.0) && Decode(r.0) == Some(r.2)
      ensures r.1 == FlagsFor(r.0)
    {
      var pos := level + [index];
      assert pos[..|level|] == level;
      IsParentEncode(level, pos);
      DecodeEncode(pos);
      LastSegmentOfEncode(pos);
      var key := ResolveKey(child.key, pos);
      (key, FlagsFor(key), pos)
    }
  }

  /** A node shows a drag marker (over it, or in the gap above or below it). */
  predicate DragMarked(f: NodeFlags) {
    f.dragOver || f.dragOverGapTop || f.dragOverGapBottom
  }
}
