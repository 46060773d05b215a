/** Optional values, and the keys of the ordered maps that the caches are kept in. */
module OrderedKeys {

  datatype Option<+T> = None | Some(value: T)

  /** The least key after `x`. */
  method UpperBound(keys: set<nat>, x: nat) returns (key: Option<nat>)
    ensures key.Some? ==> key.value in keys && x < key.value && forall k :: k in keys && x < k ==> key.value <= k
    ensures key.None? ==> forall k :: k in keys ==> k <= x
  {
    key := None;
    var todo := keys;
    while todo != {}
      invariant todo <= keys
      invariant key.Some? ==> key.value in keys && x < key.value
      invariant forall k :: k in keys && k !in todo && x < k ==> key.Some? && key.value <= k
    {
      var k :| k in todo;
      if x < k && (key.None? || k < key.value) { key := Some(k); }
      todo := todo - {k};
    }
  }

  /** The greatest key up to `x`, which is the one before the upper bound. */
  method Before(keys: set<nat>, x: nat) returns (key: Option<nat>)
    ensures key.Some? ==> key.value in keys && key.value <= x && forall k :: k in keys && k <= x ==> k <= key.value
    ensures key.None? ==> forall k :: k in keys ==> x < k
  {
    key := None;
    var todo := keys;
    while todo != {}
      invariant todo <= keys
      invariant key.Some? ==> key.value in keys && key.value <= x
      invariant forall k :: k in keys && k !in todo && k <= x ==> key.Some? && k <= key.value
    {
      var k :| k in todo;
      if k <= x && (key.None? || key.value < k) { key := Some(k); }
      todo := todo - {k};
    }
  }

  /** A number that is not in the set. */
  ghost function Unused(s: set<nat>): (n: nat)
    ensures n !in s && forall x :: x in s ==> x < n
  {
    if s == {} then 0
    else
      var x :| x in s;
      var n := Unused(s - {x});
      assert forall y :: y in s ==> y == x || y in s - {x};
      if n <= x then x + 1 else n
  }
}
