/**
 * `calcExpandedKeys`: which keys must be expanded so that the requested keys become visible.
 * With `autoExpandParent` the answer is the keys of every node that is a proper ancestor of a
 * node holding a requested key; when no such node exists the requested list is kept as it is.
 */
module ExpandPath {
  import opened Wrappers
  import opened KeyLists
  import opened PathCodec
  import opened TreeWalk

  /** `k` is the key of a visited node that is a parent (at any depth) of a node with a requested key. */
  ghost predicate InClosure(vs: seq<Visit>, keys: seq<Key>, k: Key) {
    exists i, j :: 0 <= i < |vs| && 0 <= j < |vs| &&
      vs[i].key == k && vs[j].key in keys && IsParent(vs[i].pos, vs[j].pos)
  }

  /** Whether some collected position lies strictly below `pos`; the search stops at the first one. */
  method SomeIsChild(pos: Position, paths: seq<Position>) returns (found: bool)
    ensures found <==> exists p :: p in paths && IsParent(pos, p)
  {
    found := false;
    var i := 0;
    while i < |paths| && !found
      invariant 0 <= i <= |paths|
      invariant found <==> exists p :: p in paths[..i] && IsParent(pos, p)
    {
      found := IsParent(pos, paths[i]);
      assert paths[..i + 1] == paths[..i] + [paths[i]];
      i := i + 1;
    }
    assert !found ==> paths[..i] == paths;
  }

  method CalcExpandedKeys(keyList: Option<seq<Key>>, autoExpandParent: bool, children: seq<TreeNode>)
    returns (r: seq<Key>)
    ensures keyList.None? ==> r == []
    ensures keyList.Some? && !autoExpandParent ==> r == keyList.value
    ensures keyList.Some? && autoExpandParent && (exists k :: InClosure(Walk(children), keyList.value, k)) ==>
              NoDup(r) && forall k :: k in r <==> InClosure(Walk(children), keyList.value, k)
    ensures keyList.Some? && autoExpandParent && (forall k :: !InClosure(Walk(children), keyList.value, k)) ==>
              r == keyList.value
  {
    if keyList.None? {
      return [];
    }
    var keys := keyList.value;
    if !autoExpandParent {
      return keys;
    }
    var vs := Walk(children);

    // Positions of the nodes whose key was requested
    var paths: seq<Position> := [];
    var i := 0;
    while i < |vs|
      invariant 0 <= i <= |vs|
      invariant forall p :: p in paths <==> exists j :: 0 <= j < i && vs[j].key in keys && vs[j].pos == p
    {
      if IndexOf(keys, vs[i].key) > -1 {
        paths := paths + [vs[i].pos];
      }
      i := i + 1;
    }

    // Keys of the nodes that are a parent of one of those positions
    var need := EmptyFlags();
    i := 0;
    while i < |vs|
      invariant 0 <= i <= |vs|
      invariant need.Valid()
      invariant forall k :: k in need.flags <==>
                  exists j :: 0 <= j < i && vs[j].key == k && exists p :: p in paths && IsParent(vs[j].pos, p)
    {
      var parent := SomeIsChild(vs[i].pos, paths);
      if parent {
        need := Assign(need, vs[i].key, true);
      }
      i := i + 1;
    }

    assert forall k :: k in need.flags <==> InClosure(vs, keys, k) by {
      forall k
        ensures k in need.flags <==> InClosure(vs, keys, k)
      {
        if InClosure(vs, keys, k) {
          var a, b :| 0 <= a < |vs| && 0 <= b < |vs| && vs[a].key == k && vs[b].key in keys && IsParent(vs[a].pos, vs[b].pos);
          assert vs[b].pos in paths;
        }
      }
    }
    // [Legacy] an empty closure falls back to the requested list
    r := if |need.order| > 0 then need.order else keys;
    if |need.order| == 0 {
      assert forall k :: k !in need.flags;
    } else {
      assert need.order[0] in need.flags;
    }
  }

  /** The closure is closed upwards: a parent of an expanded node's position is expanded too. */
  lemma ClosureUpwardClosed(vs: seq<Visit>, keys: seq<Key>, a: nat, b: nat)
    requires a < |vs| && b < |vs|
    requires InClosure(vs, keys, vs[b].key) && IsParent(vs[a].pos, vs[b].pos)
    requires forall i, j :: 0 <= i < |vs| && 0 <= j < |vs| && vs[i].key == vs[j].key ==> i == j
    ensures InClosure(vs, keys, vs[a].key)
  {
    var i, j :| 0 <= i < |vs| && 0 <= j < |vs| &&
      vs[i].key == vs[b].key && vs[j].key in keys && IsParent(vs[i].pos, vs[j].pos);
    assert i == b;
    IsParentTransitive(vs[a].pos, vs[b].pos, vs[j].pos);
  }

  /** Requested keys that name no node leave the closure empty, so the requested list is kept. */
  lemma NoMatchNoClosure(vs: seq<Visit>, keys: seq<Key>)
    requires forall i :: 0 <= i < |vs| ==> vs[i].key !in keys
    ensures forall k :: !InClosure(vs, keys, k)
  {
  }
}
