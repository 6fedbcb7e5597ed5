/**
 * The node tree the component renders and the depth-first walk over it (`traverseTreeNodes`):
 * every node is visited before its children, children in their given order, and each visit
 * carries the node's key and position.
 */
module TreeWalk {
  import opened Wrappers
  import opened KeyLists
  import opened PathCodec

  /** A child element: an optional explicit `key` and its own children. */
  datatype TreeNode = TreeNode(key: Option<Key>, children: seq<TreeNode>)

  /** One step of the walk: `{ node, key, pos }` as handed to the callback. */
  datatype Visit = Visit(node: TreeNode, key: Key, pos: Position)

  /** The props a handler reads from the tree node that raised the event. */
  datatype NodeProps = NodeProps(
    eventKey: Key,
    pos: Position,
    expanded: bool,
    selected: bool,
    children: seq<TreeNode>)

  /** `node.key || pos`: an explicit non-empty key wins, otherwise the position string stands in. */
  function ResolveKey(explicit: Option<Key>, pos: Position): (k: Key)
    ensures k != ""
    ensures k == explicit.GetOr("") || k == Encode(pos)
  {
    if explicit.Some? && explicit.value != "" then explicit.value else Encode(pos)
  }

  function WalkNode(t: TreeNode, pos: Position): seq<Visit>
    decreases t
  {
    [Visit(t, ResolveKey(t.key, pos), pos)] + WalkForest(t.children, pos, 0)
  }

  /** The walk over siblings `ts` under `parent`, the first of them having index `start`. */
  function WalkForest(ts: seq<TreeNode>, parent: Position, start: nat): seq<Visit>
    decreases ts
  {
    if ts == [] then []
    else WalkNode(ts[0], parent + [start]) + WalkForest(ts[1..], parent, start + 1)
  }

  /** `traverseTreeNodes(children, callback)`: the top-level children sit under the root position "0". */
  function Walk(children: seq<TreeNode>): seq<Visit> {
    WalkForest(children, [0], 0)
  }

  /**
   * What a whole traversal guarantees: every visit lies below the root position, no position is
   * visited twice, and each key is `node.key || pos`.
   */
  lemma WalkWellFormed(children: seq<TreeNode>)
    ensures forall v :: v in Walk(children) ==> IsParent([0], v.pos) && v.key == ResolveKey(v.node.key, v.pos)
    ensures PositionsDistinct(Walk(children))
  {
    WalkForestWithin(children, [0], 0);
    WalkForestDistinct(children, [0], 0);
    WalkForestKeys(children, [0], 0);
  }

  predicate PositionsDistinct(vs: seq<Visit>) {
    forall i, j :: 0 <= i < j < |vs| ==> vs[i].pos != vs[j].pos
  }

  /** Every visit below a node is the node itself or one of its descendants. */
  lemma {:induction false} WalkNodeWithin(t: TreeNode, pos: Position)
    ensures forall v :: v in WalkNode(t, pos) ==> v.pos == pos || IsParent(pos, v.pos)
    decreases t
  {
    WalkForestWithin(t.children, pos, 0);
  }

  /** Every visit of a run of siblings lies strictly below their parent, in the slot of one of them. */
  lemma {:induction false} WalkForestWithin(ts: seq<TreeNode>, parent: Position, start: nat)
    ensures forall v :: v in WalkForest(ts, parent, start) ==>
              IsParent(parent, v.pos) && start <= v.pos[|parent|] < start + |ts|
    decreases ts
  {
    if ts != [] {
      var here := parent + [start];
      WalkNodeWithin(ts[0], here);
      WalkForestWithin(ts[1..], parent, start + 1);
      forall v | v in WalkNode(ts[0], here)
        ensures IsParent(parent, v.pos) && v.pos[|parent|] == start
      {
        assert v.pos[..|here|] == here;
        assert v.pos[..|parent|] == here[..|parent|] == parent;
        assert v.pos[|parent|] == here[|parent|];
      }
    }
  }

  lemma DistinctConcat(a: seq<Visit>, b: seq<Visit>)
    requires PositionsDistinct(a) && PositionsDistinct(b)
    requires forall x, y :: x in a && y in b ==> x.pos != y.pos
    ensures PositionsDistinct(a + b)
  {
    var c := a + b;
    forall i, j | 0 <= i < j < |c|
      ensures c[i].pos != c[j].pos
    {
      if j >= |a| && i < |a| {
        assert c[i] in a && c[j] in b;
      } else if i >= |a| {
        assert c[i] == b[i - |a|] && c[j] == b[j - |a|];
      }
    }
  }

  /** No two visits of a walk share a position. */
  lemma {:induction false} WalkNodeDistinct(t: TreeNode, pos: Position)
    ensures PositionsDistinct(WalkNode(t, pos))
    decreases t
  {
    WalkForestDistinct(t.children, pos, 0);
    WalkForestWithin(t.children, pos, 0);
    DistinctConcat([Visit(t, ResolveKey(t.key, pos), pos)], WalkForest(t.children, pos, 0));
  }

  lemma {:induction false} WalkForestDistinct(ts: seq<TreeNode>, parent: Position, start: nat)
    ensures PositionsDistinct(WalkForest(ts, parent, start))
    decreases ts
  {
    if ts != [] {
      var here := parent + [start];
      var a, b := WalkNode(ts[0], here), WalkForest(ts[1..], parent, start + 1);
      WalkNodeDistinct(ts[0], here);
      WalkForestDistinct(ts[1..], parent, start + 1);
      WalkForestWithin(ts, parent, start);
      WalkForestWithin(ts[1..], parent, start + 1);
      WalkNodeWithin(ts[0], here);
      forall x, y | x in a && y in b
        ensures x.pos != y.pos
      {
        assert x.pos[..|here|] == here;
        assert x.pos[|parent|] == here[|parent|] == start;
      }
      DistinctConcat(a, b);
    }
  }

  /** Two nodes without an explicit key never share a key: their keys are their distinct positions. */
  lemma SynthesizedKeysDistinct(children: seq<TreeNode>, i: nat, j: nat)
    requires i < j < |Walk(children)|
    requires Walk(children)[i].node.key.GetOr("") == ""
    requires Walk(children)[j].node.key.GetOr("") == ""
    ensures Walk(children)[i].key != Walk(children)[j].key
  {
    var vs := Walk(children);
    WalkForestDistinct(children, [0], 0);
    WalkForestKeys(children, [0], 0);
    EncodeInjective(vs[i].pos, vs[j].pos);
  }

  /** Each visit's key is resolved from its own node and position. */
  lemma {:induction false} WalkNodeKeys(t: TreeNode, pos: Position)
    ensures forall v :: v in WalkNode(t, pos) ==> v.key == ResolveKey(v.node.key, v.pos)
    decreases t
  {
    WalkForestKeys(t.children, pos, 0);
  }

  lemma {:induction false} WalkForestKeys(ts: seq<TreeNode>, parent: Position, start: nat)
    ensures forall v :: v in WalkForest(ts, parent, start) ==> v.key == ResolveKey(v.node.key, v.pos)
    decreases ts
  {
    if ts != [] {
      WalkNodeKeys(ts[0], parent + [start]);
      WalkForestKeys(ts[1..], parent, start + 1);
    }
  }

  /** The keys of a run of visits, in walk order. */
  function KeysOf(vs: seq<Visit>): (ks: seq<Key>)
    ensures |ks| == |vs| && forall i :: 0 <= i < |vs| ==> ks[i] == vs[i].key
  {
    seq(|vs|, i requires 0 <= i < |vs| => vs[i].key)
  }

  /**
   * `getDragNodesKeys`: the keys of every node under the dragged one, then the dragged node's own key.
   * The walk below the dragged node continues from the node's own position.
   */
  function GetDragNodesKeys(node: NodeProps): (keys: seq<Key>)
    ensures node.eventKey in keys
    ensures forall k :: k in keys ==>
              (k == node.eventKey ||
               exists v :: v in WalkForest(node.children, node.pos, 0) && v.key == k && IsParent(node.pos, v.pos))
    ensures forall v :: v in WalkForest(node.children, node.pos, 0) ==> v.key in keys && IsParent(node.pos, v.pos)
  {
    var below := WalkForest(node.children, node.pos, 0);
    WalkForestWithin(node.children, node.pos, 0);
    assert forall v :: v in below ==> v.key in KeysOf(below) by {
      forall v | v in below
        ensures v.key in KeysOf(below)
      {
        var i :| 0 <= i < |below| && below[i] == v;
        assert KeysOf(below)[i] == v.key;
      }
    }
    KeysOf(below) + [node.eventKey]
  }

  /** The visits whose key is in `keys`, in walk order. */
  function FilterByKeys(vs: seq<Visit>, keys: seq<Key>): (r: seq<Visit>)
    ensures forall v :: v in r <==> v in vs && v.key in keys
    ensures |r| <= |vs|
    decreases |vs|
  {
    if vs == [] then []
    else
      var last := vs[|vs| - 1];
      assert vs == vs[..|vs| - 1] + [last];
      FilterByKeys(vs[..|vs| - 1], keys) + (if last.key in keys then [last] else [])
  }

  /**
   * Walks the visits in order and keeps each one whose key is listed: the nodes a traversal
   * collects by key.
   */
  method CollectNodes(vs: seq<Visit>, keys: seq<Key>) returns (nodes: seq<Visit>)
    ensures nodes == FilterByKeys(vs, keys)
  {
    nodes := [];
    var i := 0;
    while i < |vs|
      invariant 0 <= i <= |vs|
      invariant nodes == FilterByKeys(vs[..i], keys)
    {
      if IndexOf(keys, vs[i].key) != -1 {
        nodes := nodes + [vs[i]];
      }
      assert vs[..i + 1][..i] == vs[..i];
      i := i + 1;
    }
    assert vs[..i] == vs;
  }
}
