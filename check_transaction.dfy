/**
 * The check transaction: while one check gesture cascades through the tree every touched
 * node records a write `{ key, checked, halfChecked }` in an open batch; at the end the
 * writes are laid over the previous checked and half-checked key sets, last write winning.
 */
module CheckTransaction {
  import opened Wrappers
  import opened KeyLists
  import opened TreeWalk

  datatype Write = Write(key: Key, checked: bool, halfChecked: bool)

  /**
   * `checkedBatch`: the node the gesture started at and its target state (both absent for a
   * batch opened without a start node), and the writes recorded so far.
   */
  datatype Batch = Batch(treeNode: Option<NodeProps>, checked: Option<bool>, list: seq<Write>)

  /** The flag a write sets in the checked map (`half` false) or in the half-checked map (`half` true). */
  function FlagOf(w: Write, half: bool): bool {
    if half then w.halfChecked else w.checked
  }

  /** The last write for key `k`, if any. */
  function LastWrite(ws: seq<Write>, k: Key): (r: Option<Write>)
    ensures r.None? <==> forall i :: 0 <= i < |ws| ==> ws[i].key != k
    ensures r.Some? ==> exists i :: 0 <= i < |ws| && ws[i] == r.value && r.value.key == k &&
                                    forall j :: i < j < |ws| ==> ws[j].key != k
    decreases |ws|
  {
    if ws == [] then None
    else if ws[|ws| - 1].key == k then Some(ws[|ws| - 1])
    else LastWrite(ws[..|ws| - 1], k)
  }

  /**
   * Whether `k` is set after committing `ws` over the key list `prev`: the flag of its last
   * write, or its membership in `prev` when the batch never wrote it.
   */
  function FinalFlag(prev: seq<Key>, ws: seq<Write>, half: bool, k: Key): (r: bool)
    ensures (forall i :: 0 <= i < |ws| ==> ws[i].key != k) ==> (r <==> k in prev)
    ensures |ws| > 0 && ws[|ws| - 1].key == k ==> r == FlagOf(ws[|ws| - 1], half)
  {
    match LastWrite(ws, k)
    case Some(w) => FlagOf(w, half)
    case None => k in prev
  }

  /** The lookup object built from a key list: every listed key set to true, starting from an empty object. */
  method KeySetOf(keys: seq<Key>) returns (m: FlagMap)
    ensures m.Valid()
    ensures forall k :: k in m.flags <==> k in keys
    ensures forall k :: k in m.flags ==> m.flags[k]
  {
    m := EmptyFlags();
    var i := 0;
    while i < |keys|
      invariant 0 <= i <= |keys|
      invariant m.Valid()
      invariant forall k :: k in m.flags <==> k in keys[..i]
      invariant forall k :: k in m.flags ==> m.flags[k]
    {
      m := Assign(m, keys[i], true);
      assert keys[..i + 1] == keys[..i] + [keys[i]];
      i := i + 1;
    }
    assert keys[..i] == keys;
  }

  /**
   * `after` is `before` with the writes of `ws` laid over it: a written key holds its last
   * write's flag, every other key its old entry.
   */
  ghost predicate Overlaid(after: map<Key, bool>, before: map<Key, bool>, ws: seq<Write>, half: bool) {
    forall k :: (k in after <==> k in before || LastWrite(ws, k).Some?) &&
                (k in after ==> after[k] == match LastWrite(ws, k)
                                            case Some(w) => FlagOf(w, half)
                                            case None => before[k])
  }

  lemma OverlaidStep(after: map<Key, bool>, before: map<Key, bool>, ws: seq<Write>, i: nat, half: bool)
    requires i < |ws| && Overlaid(after, before, ws[..i], half)
    ensures Overlaid(after[ws[i].key := FlagOf(ws[i], half)], before, ws[..i + 1], half)
  {
    assert ws[..i + 1][..i] == ws[..i];
  }

  /**
   * Lays the batch over the two lookup objects: each write sets its key's checked flag in one
   * and its half-checked flag in the other, in batch order.
   */
  method OverlayWrites(c: FlagMap, h: FlagMap, ws: seq<Write>) returns (c': FlagMap, h': FlagMap)
    requires c.Valid() && h.Valid()
    ensures c'.Valid() && h'.Valid()
    ensures Overlaid(c'.flags, c.flags, ws, false)
    ensures Overlaid(h'.flags, h.flags, ws, true)
  {
    c', h' := c, h;
    var i := 0;
    while i < |ws|
      invariant 0 <= i <= |ws|
      invariant c'.Valid() && h'.Valid()
      invariant Overlaid(c'.flags, c.flags, ws[..i], false)
      invariant Overlaid(h'.flags, h.flags, ws[..i], true)
    {
      var w := ws[i];
      OverlaidStep(c'.flags, c.flags, ws, i, false);
      OverlaidStep(h'.flags, h.flags, ws, i, true);
      c' := Assign(c', w.key, w.checked);
      h' := Assign(h', w.key, w.halfChecked);
      i := i + 1;
    }
    assert ws[..i] == ws;
  }

  /**
   * The commit: the previous keys as lookup objects, the writes laid over them, then the keys
   * whose flag is true.
   */
  method CommitBatch(checkedKeys: seq<Key>, halfCheckedKeys: seq<Key>, ws: seq<Write>)
    returns (newCheckedKeys: seq<Key>, newHalfCheckedKeys: seq<Key>)
    ensures NoDup(newCheckedKeys) && NoDup(newHalfCheckedKeys)
    ensures forall k :: k in newCheckedKeys <==> FinalFlag(checkedKeys, ws, false, k)
    ensures forall k :: k in newHalfCheckedKeys <==> FinalFlag(halfCheckedKeys, ws, true, k)
  {
    var checkedKeySet := KeySetOf(checkedKeys);
    var halfCheckedKeySet := KeySetOf(halfCheckedKeys);
    checkedKeySet, halfCheckedKeySet := OverlayWrites(checkedKeySet, halfCheckedKeySet, ws);
    newCheckedKeys := TrueKeys(checkedKeySet);
    newHalfCheckedKeys := TrueKeys(halfCheckedKeySet);
  }

  /** Laying `a + b` over a key list is laying `a`, then `b`: the last write of a key comes from `b` if `b` writes it. */
  lemma {:induction false} LastWriteConcat(a: seq<Write>, b: seq<Write>, k: Key)
    ensures LastWrite(a + b, k) == if LastWrite(b, k).Some? then LastWrite(b, k) else LastWrite(a, k)
    decreases |b|
  {
    if b == [] {
      assert a + b == a;
    } else {
      var b' := b[..|b| - 1];
      assert (a + b)[..|a + b| - 1] == a + b';
      LastWriteConcat(a, b', k);
    }
  }

  /**
   * Two batches committed one after the other leave the same key set as one batch holding
   * both write lists: `mid` is any key list that holds exactly the keys set by the first commit.
   */
  lemma CommitSequential(prev: seq<Key>, mid: seq<Key>, a: seq<Write>, b: seq<Write>, half: bool)
    requires forall k :: k in mid <==> FinalFlag(prev, a, half, k)
    ensures forall k :: FinalFlag(mid, b, half, k) == FinalFlag(prev, a + b, half, k)
  {
    forall k
      ensures FinalFlag(mid, b, half, k) == FinalFlag(prev, a + b, half, k)
    {
      LastWriteConcat(a, b, k);
    }
  }

  /** Committing the same batch a second time changes nothing: no flag is toggled twice. */
  lemma CommitIdempotent(prev: seq<Key>, once: seq<Key>, ws: seq<Write>, half: bool)
    requires forall k :: k in once <==> FinalFlag(prev, ws, half, k)
    ensures forall k :: FinalFlag(once, ws, half, k) == FinalFlag(prev, ws, half, k)
  {
  }

  /** Writes to different keys commute: their order in the batch does not change the outcome. */
  lemma DistinctWritesCommute(prev: seq<Key>, ws: seq<Write>, x: Write, y: Write, half: bool, k: Key)
    requires x.key != y.key
    ensures FinalFlag(prev, ws + [x, y], half, k) == FinalFlag(prev, ws + [y, x], half, k)
  {
    LastWriteConcat(ws, [x, y], k);
    LastWriteConcat(ws, [y, x], k);
    assert [x, y][..1] == [x] && [y, x][..1] == [y];
  }

  /**
   * No key ends up both checked and half-checked, provided the previous sets were disjoint
   * and no write sets both flags.
   */
  lemma CommitKeepsDisjoint(checked: seq<Key>, halfChecked: seq<Key>, ws: seq<Write>, k: Key)
    requires forall x :: !(x in checked && x in halfChecked)
    requires forall i :: 0 <= i < |ws| ==> !(ws[i].checked && ws[i].halfChecked)
    ensures !(FinalFlag(checked, ws, false, k) && FinalFlag(halfChecked, ws, true, k))
  {
  }
}
