/** JavaScript's Map, restricted to what the aggregator uses: `set`, and iteration over the
    entries in insertion order (`Array.from(map)`). */
module JsMap {

  /** No element occurs twice. */
  predicate Distinct<K(==)>(s: seq<K>)
  {
    forall i, j :: 0 <= i < j < |s| ==> s[i] != s[j]
  }

  /** The key order after `set(k, …)`: a new key goes to the end, and a key already present
      keeps its place, so the keys already there never move. */
  function InsertKey<K(==, !new)>(keys: seq<K>, k: K): (r: seq<K>)
    ensures |keys| <= |r| <= |keys| + 1 && r[..|keys|] == keys
    ensures forall x :: x in r <==> x in keys || x == k
    ensures Distinct(keys) ==> Distinct(r)
  {
    if k in keys then keys else keys + [k]
  }

  /** A Map instance: its keys in insertion order and the value stored under each. */
  class OrderedMap<K(==, !new), V> {
    var keys: seq<K>
    var values: map<K, V>

    ghost predicate Valid()
      reads this
    {
      Distinct(keys) && forall k :: k in values <==> k in keys
    }

    /** `new Map()` */
    constructor ()
      ensures Valid() && keys == [] && values == map[]
    {
      keys := [];
      values := map[];
    }

    /** `map.set(k, v)`: store v under k; the insertion order changes only for a new key. */
    method Set(k: K, v: V)
      requires Valid()
      modifies this
      ensures Valid()
      ensures keys == InsertKey(old(keys), k)
      ensures values == old(values)[k := v]
    {
      if k !in values {
        keys := keys + [k];
      }
      values := values[k := v];
    }

    /** `Array.from(map)`: the [key, value] pairs in insertion order. */
    function Entries(): (es: seq<(K, V)>)
      reads this
      requires Valid()
      ensures |es| == |keys|
      ensures forall i :: 0 <= i < |es| ==> es[i].0 == keys[i] && es[i].1 == values[keys[i]]
    {
      seq(|keys|, i requires 0 <= i < |keys| && keys[i] in values reads this =>
        (keys[i], values[keys[i]]))
    }
  }
}
