/** The semantics of a JavaScript `Map` as the cache uses it: a finite map
    together with the order in which its keys were inserted. `set` of a new
    key appends it to that order, `set` of a present key keeps its place,
    `delete` takes the key out, and `forEach` visits the keys in that order. */
module OrderedMaps {
  import opened Seqs

  datatype OrderedMap<K(==, !new), V> = OrderedMap(order: seq<K>, entries: map<K, V>) {

    /** The insertion order lists every key of the map exactly once. */
    ghost predicate Valid() {
      && Distinct(order)
      && forall k :: k in entries <==> k in order
    }

    /** `map.size` */
    function Size(): (n: nat)
      ensures n == 0 <==> entries == map[]
    {
      |entries|
    }

    /** `map.has(k)`: on a valid map, a key is present exactly when it is
        in the insertion order. */
    predicate Has(k: K): (b: bool)
      ensures Valid() ==> (b <==> k in order)
    {
      k in entries
    }

    /** `map.set(k, v)`: binds k to v; a new key goes to the end of the
        insertion order, a present key keeps its place. */
    function Set(k: K, v: V): (m: OrderedMap<K, V>)
      ensures Valid() ==> m.Valid()
      ensures m.entries == entries[k := v]
      ensures k in entries ==> m.order == order
      ensures k !in entries ==> m.order == order + [k]
    {
      if k in entries then
        OrderedMap(order, entries[k := v])
      else
        AppendValid(k, v);
        OrderedMap(order + [k], entries[k := v])
    }

    /** `map.delete(k)`: unbinds k and takes it out of the insertion order,
        the other keys keeping their relative order; no effect on an absent key. */
    function Delete(k: K): (m: OrderedMap<K, V>)
      requires Valid()
      ensures m.Valid()
      ensures m.entries == entries - {k}
      ensures k in entries ==> m.order == RemoveAt(order, IndexOf(order, k))
      ensures k !in entries ==> m == this
    {
      if k in entries then
        RemoveAtDistinct(order, IndexOf(order, k));
        OrderedMap(RemoveAt(order, IndexOf(order, k)), entries - {k})
      else
        this
    }

    /** Appending a new key keeps the insertion order consistent with the map. */
    lemma AppendValid(k: K, v: V)
      requires k !in entries
      ensures Valid() ==> OrderedMap(order + [k], entries[k := v]).Valid()
    {
      if Valid() {
        AppendDistinct(order, k);
      }
    }
  }

  /** `new Map()` */
  function Empty<K(==, !new), V>(): (m: OrderedMap<K, V>)
    ensures m.Valid() && m.Size() == 0 && m.order == []
  {
    OrderedMap([], map[])
  }

  /** The size of a map is the length of its insertion order. */
  lemma SizeIsOrderLength<K(!new), V>(m: OrderedMap<K, V>)
    requires m.Valid()
    ensures m.Size() == |m.order|
  {
    DistinctCardinality(m.order);
    assert m.entries.Keys == set x | x in m.order;
  }

  /** Deleting a present key and setting it again moves it to the end of the
      insertion order and keeps the others in their order. */
  lemma ReinsertMovesToEnd<K(!new), V>(m: OrderedMap<K, V>, k: K, v: V)
    requires m.Valid() && k in m.entries
    ensures m.Delete(k).Set(k, v).order == RemoveAt(m.order, IndexOf(m.order, k)) + [k]
    ensures m.Delete(k).Set(k, v).entries == m.entries[k := v]
  {
    var d := m.Delete(k);
    assert k !in d.entries;
    assert d.entries[k := v] == m.entries[k := v];
  }
}
