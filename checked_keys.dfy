/**
 * `calcCheckedKeys`: normalises the `checkedKeys` prop, which may be a key array or a
 * `{ checked, halfChecked }` object, into a checked/half-checked pair. Strict mode keeps
 * the pair as given; conduct mode hands the checked keys alone to the conduction routine.
 */
module CheckedKeys {
  import opened Wrappers
  import opened KeyLists
  import opened TreeWalk

  /** The shapes the prop can take; `Missing` is any falsy value, `OtherValue` any other non-object. */
  datatype CheckedKeysInput =
    | Missing
    | KeyArray(keys: seq<Key>)
    | KeyObject(checked: Option<seq<Key>>, halfChecked: Option<seq<Key>>)
    | OtherValue

  /** `{ checkedKeys, halfCheckedKeys }`, either field possibly undefined. */
  datatype KeyProps = KeyProps(checkedKeys: Option<seq<Key>>, halfCheckedKeys: Option<seq<Key>>)

  /** What `calcCheckStateConduct(children, checkedKeys)` returns. */
  datatype CheckState = CheckState(checkedKeys: seq<Key>, halfCheckedKeys: seq<Key>)

  /** `calcCheckStateConduct` is not part of this model: it is taken as a given function. */
  type Conduct = (seq<TreeNode>, seq<Key>) -> CheckState

  /** The object form before any conduction ("Convert keys to object format"). */
  function ToKeyProps(keys: CheckedKeysInput): (r: Option<KeyProps>)
    ensures r.Some? <==> keys.KeyArray? || keys.KeyObject?
    ensures keys.KeyArray? ==> r.value.checkedKeys == Some(keys.keys) && r.value.halfCheckedKeys.None?
  {
    match keys
    case KeyArray(ks) => Some(KeyProps(Some(ks), None))
    case KeyObject(c, h) => Some(KeyProps(c, h))
    case _ => None
  }

  function CalcCheckedKeys(keys: CheckedKeysInput, checkable: bool, checkStrictly: bool,
                           children: seq<TreeNode>, conduct: Conduct): (r: Option<KeyProps>)
    ensures r.Some? <==> checkable && (keys.KeyArray? || keys.KeyObject?)
    ensures r.Some? && checkStrictly ==> r == ToKeyProps(keys)
    ensures r.Some? && !checkStrictly ==>
              r.value.checkedKeys.Some? && r.value.halfCheckedKeys.Some? &&
              CheckState(r.value.checkedKeys.value, r.value.halfCheckedKeys.value) ==
                conduct(children, ToKeyProps(keys).value.checkedKeys.GetOr([]))
  {
    if !checkable || keys.Missing? then None
    else
      match ToKeyProps(keys)
      case None => None
      case Some(keyProps) =>
        if checkStrictly then Some(keyProps)
        else
          var state := conduct(children, keyProps.checkedKeys.GetOr([]));
          Some(KeyProps(Some(state.checkedKeys), Some(state.halfCheckedKeys)))
  }

  /** Strict mode passes a `{ checked, halfChecked }` object through verbatim, without consulting the tree. */
  lemma StrictPassThrough(c: seq<Key>, h: seq<Key>, children: seq<TreeNode>, conduct: Conduct)
    ensures CalcCheckedKeys(KeyObject(Some(c), Some(h)), true, true, children, conduct) ==
            Some(KeyProps(Some(c), Some(h)))
  {
  }

  /**
   * Conduct mode discards supplied half-checked keys: an object with any half-checked list
   * gives what the plain array of its checked keys gives.
   */
  lemma ConductIgnoresHalfChecked(c: seq<Key>, h: Option<seq<Key>>, children: seq<TreeNode>, conduct: Conduct)
    ensures CalcCheckedKeys(KeyObject(Some(c), h), true, false, children, conduct) ==
            CalcCheckedKeys(KeyArray(c), true, false, children, conduct)
  {
  }
}
