/**
 * Key lists as the component keeps them: arrays of string keys that are read as sets,
 * plus the two array helpers the handlers use to toggle one key and the plain-object
 * "key set" (`{}` indexed by key, enumerated with `Object.keys`) used while committing.
 */
module KeyLists {

  type Key = string

  /** A key list that holds every key at most once, i.e. a set materialised as an array. */
  predicate NoDup(s: seq<Key>) {
    forall i, j :: 0 <= i < j < |s| ==> s[i] != s[j]
  }

  /** `list.indexOf(k)`: the first index holding `k`, or -1. */
  function IndexOf(list: seq<Key>, k: Key): (i: int)
    ensures -1 <= i < |list|
    ensures i >= 0 ==> list[i] == k && k !in list[..i]
    ensures i < 0 <==> k !in list
  {
    if list == [] then -1
    else if list[0] == k then 0
    else
      var j := IndexOf(list[1..], k);
      assert j >= 0 ==> list[1..][..j] == list[1..j + 1];
      if j < 0 then -1 else j + 1
  }

  /** `arrAdd`: a copy of `list` with `k` pushed at the end unless it is already there. */
  function ArrAdd(list: seq<Key>, k: Key): (r: seq<Key>)
    ensures forall x :: x in r <==> x in list || x == k
    ensures |r| == if k in list then |list| else |list| + 1
    ensures r[..|list|] == list
    ensures NoDup(list) ==> NoDup(r)
  {
    if IndexOf(list, k) == -1 then list + [k] else list
  }

  /** `arrDel`: a copy of `list` with the first occurrence of `k` spliced out. */
  function ArrDel(list: seq<Key>, k: Key): (r: seq<Key>)
    ensures multiset(r) == multiset(list) - multiset{k}
    ensures forall x :: x != k ==> (x in r <==> x in list)
    ensures NoDup(list) ==> NoDup(r) && k !in r
  {
    var i := IndexOf(list, k);
    if i < 0 then
      list
    else
      SpliceFacts(list, i);
      list[..i] + list[i + 1..]
  }

  lemma SpliceFacts(list: seq<Key>, i: nat)
    requires i < |list| && list[i] !in list[..i]
    ensures multiset(list[..i] + list[i + 1..]) == multiset(list) - multiset{list[i]}
    ensures forall x :: x != list[i] ==> (x in list[..i] + list[i + 1..] <==> x in list)
    ensures NoDup(list) ==> NoDup(list[..i] + list[i + 1..]) && list[i] !in list[..i] + list[i + 1..]
  {
    SpliceMultiset(list, i);
    SpliceMembers(list, i);
    if NoDup(list) {
      SpliceNoDup(list, i);
    }
  }

  lemma SpliceMultiset(list: seq<Key>, i: nat)
    requires i < |list|
    ensures multiset(list[..i] + list[i + 1..]) == multiset(list) - multiset{list[i]}
  {
    assert list == list[..i] + [list[i]] + list[i + 1..];
  }

  lemma SpliceMembers(list: seq<Key>, i: nat)
    requires i < |list|
    ensures forall x :: x != list[i] ==> (x in list[..i] + list[i + 1..] <==> x in list)
  {
    assert list == list[..i] + [list[i]] + list[i + 1..];
  }

  lemma SpliceNoDup(list: seq<Key>, i: nat)
    requires i < |list| && NoDup(list)
    ensures NoDup(list[..i] + list[i + 1..]) && list[i] !in list[..i] + list[i + 1..]
  {
    var r := list[..i] + list[i + 1..];
    forall a, b | 0 <= a < b < |r|
      ensures r[a] != r[b]
    {
      var a' := if a < i then a else a + 1;
      var b' := if b < i then b else b + 1;
      assert r[a] == list[a'] && r[b] == list[b'];
    }
  }

  /** Deleting a key just added to a list that lacked it gives the list back: the two toggles are inverse. */
  lemma ArrDelUndoesArrAdd(list: seq<Key>, k: Key)
    requires k !in list
    ensures ArrDel(ArrAdd(list, k), k) == list
  {
    var added := ArrAdd(list, k);
    assert added == list + [k];
    assert added[|list|] == k && k !in added[..|list|];
  }

  /** Adding back a key just deleted from a duplicate-free list restores the same set of keys. */
  lemma ArrAddUndoesArrDel(list: seq<Key>, k: Key)
    requires NoDup(list) && k in list
    ensures forall x :: x in ArrAdd(ArrDel(list, k), k) <==> x in list
    ensures NoDup(ArrAdd(ArrDel(list, k), k)) && |ArrAdd(ArrDel(list, k), k)| == |list|
  {
    assert multiset(ArrDel(list, k)) == multiset(list) - multiset{k};
    assert |ArrDel(list, k)| == |list| - 1;
  }

  /**
   * A plain JavaScript object used as a dictionary from key to flag: `flags` holds the
   * properties and `order` the order `Object.keys` lists them in (insertion order).
   */
  datatype FlagMap = FlagMap(order: seq<Key>, flags: map<Key, bool>) {

    ghost predicate Valid() {
      && NoDup(order)
      && (forall k :: k in order <==> k in flags)
    }
  }

  /** `{}` */
  function EmptyFlags(): (m: FlagMap)
    ensures m.Valid() && m.flags == map[]
  {
    FlagMap([], map[])
  }

  /** `m[k] = b`: a new property goes to the end of the enumeration order, an existing one keeps its place. */
  function Assign(m: FlagMap, k: Key, b: bool): (r: FlagMap)
    requires m.Valid()
    ensures r.Valid()
    ensures r.flags == m.flags[k := b]
    ensures |m.order| <= |r.order| && r.order[..|m.order|] == m.order
  {
    if k in m.flags then m.(flags := m.flags[k := b])
    else FlagMap(m.order + [k], m.flags[k := b])
  }

  /** The keys whose flag is true, each once, in enumeration order. */
  method TrueKeys(m: FlagMap) returns (ks: seq<Key>)
    requires m.Valid()
    ensures NoDup(ks)
    ensures forall k :: k in ks <==> k in m.flags && m.flags[k]
  {
    ks := [];
    var i := 0;
    while i < |m.order|
      invariant 0 <= i <= |m.order|
      invariant NoDup(ks)
      invariant forall k :: k in ks <==> k in m.order[..i] && m.flags[k]
    {
      var k := m.order[i];
      assert k !in m.order[..i];
      if m.flags[k] {
        ks := ks + [k];
      }
      assert m.order[..i + 1] == m.order[..i] + [k];
      i := i + 1;
    }
    assert m.order[..i] == m.order;
  }
}
