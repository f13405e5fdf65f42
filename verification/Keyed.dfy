/** Sequences that list the items of a table, one per key, in some order: what
    is counted over them does not depend on that order. */
module Keyed {
  import opened Bytes
  import opened Sequences

  ghost predicate DistinctBy<T, K>(xs: seq<T>, key: T -> K) {
    forall i, j | 0 <= i < j < |xs| :: key(xs[i]) != key(xs[j])
  }

  ghost function KeysWhere<T, K>(xs: seq<T>, key: T -> K, p: T -> bool): set<K> {
    set x | x in xs && p(x) :: key(x)
  }

  /** Counting items with distinct keys is counting keys. */
  lemma {:induction false} CountKeys<T, K>(xs: seq<T>, key: T -> K, p: T -> bool)
    requires DistinctBy(xs, key)
    ensures CountIf(xs, p) == |KeysWhere(xs, key, p)|
  {
    if xs == [] {
      assert KeysWhere(xs, key, p) == {};
    } else {
      var before, x := Front(xs), Last(xs);
      CountKeys(before, key, p);
      assert xs == before + [x];
      assert KeysWhere(xs, key, p) == KeysWhere(before, key, p) + if p(x) then {key(x)} else {};
      assert key(x) !in KeysWhere(before, key, p);
    }
  }

  function Any<T>(): T -> bool {
    (x: T) => true
  }

  lemma {:induction false} CountAny<T>(xs: seq<T>)
    ensures CountIf(xs, Any()) == |xs|
  {
    if xs == [] {
    } else {
      CountAny(Front(xs));
    }
  }

  // ---- The values that the items of a table contribute ----

  /** The values that are there, in order. */
  function Present<T>(xs: seq<T>, val: T -> Option<u64>): seq<u64> {
    if xs == [] then []
    else
      var before := Present(Front(xs), val);
      match val(Last(xs))
      case None => before
      case Some(v) => before + [v]
  }

  function Gives<T>(val: T -> Option<u64>, v: u64): T -> bool {
    (x: T) => val(x) == Some(v)
  }

  lemma {:induction false} PresentCount<T>(xs: seq<T>, val: T -> Option<u64>, v: u64)
    ensures multiset(Present(xs, val))[v] == CountIf(xs, Gives(val, v))
  {
    if xs == [] {
    } else {
      PresentCount(Front(xs), val, v);
    }
  }

  /** Every item on the left has a counterpart on the right: one key, one value. */
  ghost predicate Matched<T, K>(xs: seq<T>, ys: seq<T>, key: T -> K, val: T -> Option<u64>) {
    forall x | x in xs :: exists y :: y in ys && key(y) == key(x) && val(y) == val(x)
  }

  lemma GivesAtMost<T, K>(xs: seq<T>, ys: seq<T>, key: T -> K, val: T -> Option<u64>, v: u64)
    requires DistinctBy(xs, key) && DistinctBy(ys, key) && Matched(xs, ys, key, val)
    ensures CountIf(xs, Gives(val, v)) <= CountIf(ys, Gives(val, v))
  {
    CountKeys(xs, key, Gives(val, v));
    CountKeys(ys, key, Gives(val, v));
    var keys, keys' := KeysWhere(xs, key, Gives(val, v)), KeysWhere(ys, key, Gives(val, v));
    assert keys <= keys';
    assert keys' == keys + (keys' - keys);
  }

  /** Two listings that match each other contribute the same bag of values. */
  lemma SameValues<T, K>(xs: seq<T>, ys: seq<T>, key: T -> K, val: T -> Option<u64>)
    requires DistinctBy(xs, key) && DistinctBy(ys, key)
    requires Matched(xs, ys, key, val) && Matched(ys, xs, key, val)
    ensures multiset(Present(xs, val)) == multiset(Present(ys, val))
  {
    forall v: u64 ensures multiset(Present(xs, val))[v] == multiset(Present(ys, val))[v] {
      PresentCount(xs, val, v);
      PresentCount(ys, val, v);
      GivesAtMost(xs, ys, key, val, v);
      GivesAtMost(ys, xs, key, val, v);
    }
  }
}
