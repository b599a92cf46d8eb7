/**
 * A Python dict keyed by strings: its entries, plus the order in which keys were
 * first inserted, which is the order of `keys()` and `items()`.
 */
module OrderedDict {

  datatype OrderedMap<V> = OrderedMap(keys: seq<string>, entries: map<string, V>) {

    /** Every key appears once in the key order, and the key order lists exactly the entries. */
    ghost predicate Valid() {
      && (forall p, q :: 0 <= p < q < |keys| ==> keys[p] != keys[q])
      && (forall k :: k in entries <==> k in keys)
    }

    /**
     * `d[k] = v`: sets the entry of k and no other; a new key goes to the end of the
     * order, an existing key keeps its place.
     */
    function Put(k: string, v: V): (m: OrderedMap<V>)
      requires Valid()
      ensures m.Valid()
      ensures m.entries == entries[k := v]
      ensures m.keys == if k in entries then keys else keys + [k]
    {
      if k in entries then OrderedMap(keys, entries[k := v]) else OrderedMap(keys + [k], entries[k := v])
    }

    /**
     * `del d[list(d.keys())[i]]`: removes the i-th key and its entry and keeps the
     * other keys in order.
     */
    function RemoveAt(i: nat): (m: OrderedMap<V>)
      requires Valid() && i < |keys|
      ensures m.Valid()
      ensures m.entries == entries - {keys[i]}
      ensures m.keys == keys[..i] + keys[i + 1..]
    {
      var ks := keys[..i] + keys[i + 1..];
      assert forall p :: 0 <= p < |ks| ==> ks[p] == keys[if p < i then p else p + 1];
      OrderedMap(ks, entries - {keys[i]})
    }
  }

  function Empty<V>(): (m: OrderedMap<V>)
    ensures m.Valid() && m.keys == [] && m.entries == map[]
  {
    OrderedMap([], map[])
  }
}
