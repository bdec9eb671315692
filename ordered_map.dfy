/** JavaScript's `Map`: a dictionary that remembers the order in which its
    keys were first set. `set` on a key already present changes its value and
    keeps its place; on a new key it appends the key. */
module OrderedMaps {

  datatype OrderedMap<K(==), V> = OrderedMap(keys: seq<K>, values: map<K, V>) {

    /** The keys listed are exactly the keys mapped, each listed once. */
    ghost predicate Valid() {
      && (forall k :: k in values ==> k in keys)
      && (forall i :: 0 <= i < |keys| ==> keys[i] in values)
      && (forall i, j :: 0 <= i < j < |keys| ==> keys[i] != keys[j])
    }

    /** `map.has(k)` */
    predicate Has(k: K) {
      k in values
    }

    /** `map.get(k)!`, for a key known to be present */
    function Get(k: K): V
      requires Has(k)
    {
      values[k]
    }

    /** `map.set(k, v)` */
    function Set(k: K, v: V): (m: OrderedMap<K, V>)
      requires Valid()
      ensures m.Valid()
      ensures m.values == values[k := v]
      ensures k in values ==> m.keys == keys
      ensures k !in values ==> m.keys == keys + [k]
    {
      if k in values then OrderedMap(keys, values[k := v])
      else OrderedMap(keys + [k], values[k := v])
    }

    /** `Array.from(map)`: the entries as pairs, in key order. */
    function Entries(): (r: seq<(K, V)>)
      requires Valid()
      ensures |r| == |keys|
      ensures forall i :: 0 <= i < |r| ==> r[i].0 == keys[i] && r[i].1 == values[keys[i]]
    {
      seq(|keys|, i requires 0 <= i < |keys| => (keys[i], values[keys[i]]))
    }
  }

  /** `new Map()` */
  function Empty<K(==), V>(): (m: OrderedMap<K, V>)
    ensures m.Valid() && m.keys == [] && m.values == map[]
  {
    OrderedMap([], map[])
  }
}
