/** The cache engine (src/LRUCache.ts): a bounded key-to-value cache made of
    a recency list and an index that must stay in step. Every entry that
    leaves the cache is reported to the `onDispose` callback; here each such
    call is appended to the ghost log `disposed`. The clock is the `now`
    argument of `Get` and `Set`. */
module Cache {
  import opened Seqs
  import opened Entries
  import opened OrderedMaps
  import opened Recency

  /** The index `CACHE`: key to the entry of its list node, in insertion order. */
  type Index<V> = OrderedMap<string, Entry<V>>

  /** The list and the index stay in step: no key twice in the list, and the
      index binds exactly the list's keys, each to the entry of its node. */
  ghost predicate Consistent<V>(list: seq<Entry<V>>, index: Index<V>) {
    && index.Valid()
    && Distinct(Keys(list))
    && index.entries == MapOf(list)
  }

  // ---------------------------------------------------------------------
  // Expiry

  /** `isExpired`: an entry is expired when a maximum age is configured and
      the clock is strictly past its expiry time. An entry without expiry
      time never expires (the source compares with `undefined`, which is false). */
  function IsExpired<V>(maxAge: nat, e: Entry<V>, now: int): (b: bool)
    ensures maxAge == 0 || e.expiresAt == None ==> !b
    ensures maxAge > 0 && e.expiresAt.Some? ==> (b <==> now > e.expiresAt.value)
  {
    maxAge > 0 && e.expiresAt.Some? && now > e.expiresAt.value
  }

  /** The entry `set` builds: the key and value as given, stamped with
      expiry time now + maxAge only when a maximum age is configured. */
  function MakeEntry<V>(maxAge: nat, key: string, value: V, now: int): (e: Entry<V>)
    ensures e.key == key && e.value == value
    ensures e.expiresAt == if maxAge > 0 then Some(now + maxAge) else None
  {
    var entry := NewEntry(key, value);
    if maxAge > 0 then WithExpiry(entry, now + maxAge) else entry
  }

  /** An entry made by `set` at time t is expired at time now exactly when a
      maximum age is configured and more than maxAge has passed since t;
      without a maximum age it never expires. */
  lemma ExpiryWindow<V>(maxAge: nat, key: string, value: V, t: int, now: int)
    ensures IsExpired(maxAge, MakeEntry(maxAge, key, value, t), now) <==> maxAge > 0 && now - t > maxAge
  {
  }

  // ---------------------------------------------------------------------
  // The consistency invariant

  /** The number of index entries is the length of the list. */
  lemma ConsistentSize<V>(list: seq<Entry<V>>, index: Index<V>)
    requires Consistent(list, index)
    ensures index.Size() == |list| == |index.order|
  {
    MapOfSize(list);
    SizeIsOrderLength(index);
  }

  /** The index holds exactly the list's keys, and each entry is stored
      under its own key. */
  lemma IndexKeysMatch<V>(list: seq<Entry<V>>, index: Index<V>, k: string)
    requires Consistent(list, index)
    ensures k in index.entries <==> k in Keys(list)
    ensures k in index.entries ==> index.entries[k].key == k
  {
    MapOfKeys(list);
    if k in index.entries {
      MapOfStoresUnderKey(list, k);
    }
  }

  /** Every node of the list is what the index holds under the node's key. */
  lemma NodeIsIndexed<V>(list: seq<Entry<V>>, index: Index<V>, i: nat)
    requires Consistent(list, index) && i < |list|
    ensures list[i].key in index.entries && index.entries[list[i].key] == list[i]
  {
    MapOfAt(list, i);
  }

  /** Removing a present key's node from the list and the key from the index
      keeps them consistent. */
  lemma RemoveConsistent<V>(list: seq<Entry<V>>, index: Index<V>, k: string)
    requires Consistent(list, index) && k in index.entries
    ensures k in Keys(list)
    ensures Consistent(Remove(list, k), index.Delete(k))
  {
    IndexKeysMatch(list, index, k);
    var i := IndexOf(Keys(list), k);
    RemoveKeys(list, k);
    MapOfRemoveAt(list, i);
  }

  /** Adding a node for a new key at the head of the list and the same entry
      under that key in the index keeps them consistent. */
  lemma AddFirstConsistent<V>(list: seq<Entry<V>>, index: Index<V>, e: Entry<V>)
    requires Consistent(list, index) && e.key !in index.entries
    ensures Consistent(AddFirst(list, e), index.Set(e.key, e))
  {
    IndexKeysMatch(list, index, e.key);
    KeysAddFirst(list, e);
    PrependDistinct(e.key, Keys(list));
    assert AddFirst(list, e)[1..] == list;
  }

  // ---------------------------------------------------------------------
  // What each operation does to the state

  /** The effect of one operation: the new list, the new index, and the
      (key, value) pairs it hands to onDispose, in order. */
  datatype Outcome<V> = Outcome(list: seq<Entry<V>>, index: Index<V>, disposals: seq<(string, V)>)

  /** Taking a present key out (the body shared by `get`'s two hit paths and
      by `delete`): its node leaves the list, the key leaves the index, and
      the node's entry is reported. */
  function Evict<V>(list: seq<Entry<V>>, index: Index<V>, key: string): (out: Outcome<V>)
    requires Consistent(list, index) && index.Has(key)
    ensures Consistent(out.list, out.index)
    ensures !out.index.Has(key) && |out.list| == |list| - 1
    ensures out.disposals == [(key, index.entries[key].value)]
  {
    RemoveConsistent(list, index, key);
    IndexKeysMatch(list, index, key);
    var node := index.entries[key];
    Outcome(Remove(list, key), index.Delete(key), [(node.key, node.value)])
  }

  /** `trim()`: the tail node leaves the list, its key leaves the index, and
      its entry is reported. */
  function TrimStep<V>(list: seq<Entry<V>>, index: Index<V>): (out: Outcome<V>)
    requires Consistent(list, index) && list != []
    ensures Consistent(out.list, out.index)
    ensures !out.index.Has(Last(list).key) && |out.list| == |list| - 1
    ensures out.disposals == [(Last(list).key, Last(list).value)]
  {
    var node := Last(list);
    RemoveLastIsRemove(list);
    IndexKeysMatch(list, index, node.key);
    RemoveConsistent(list, index, node.key);
    Outcome(RemoveLast(list), index.Delete(node.key), [(node.key, node.value)])
  }

  /** `set(key, value)` with the entry e it builds: a present key is evicted
      first and e takes its place at the head, without trimming; a new e
      goes to the head, followed by `trim` when the index outgrows maxSize. */
  function SetStep<V>(maxSize: nat, list: seq<Entry<V>>, index: Index<V>, e: Entry<V>): (out: Outcome<V>)
    requires Consistent(list, index)
    ensures |out.disposals| <= 1
    ensures index.Has(e.key) ==> out.disposals == [(e.key, index.entries[e.key].value)]
    ensures !index.Has(e.key) && index.Size() < maxSize ==> out.disposals == []
  {
    if index.Has(e.key) then
      var out := Evict(list, index, e.key);
      AddFirstConsistent(out.list, out.index, e);
      Outcome(AddFirst(out.list, e), out.index.Set(e.key, e), out.disposals)
    else
      var grown := index.Set(e.key, e);
      AddFirstConsistent(list, index, e);
      if grown.Size() > maxSize then
        TrimStep(AddFirst(list, e), grown)
      else
        Outcome(AddFirst(list, e), grown, [])
  }

  /** The state change of `get(key)`: a present key is evicted whether or not
      its entry has expired; an absent key changes nothing. */
  function GetStep<V>(list: seq<Entry<V>>, index: Index<V>, key: string): (out: Outcome<V>)
    requires Consistent(list, index)
    ensures Consistent(out.list, out.index)
    ensures !out.index.Has(key)
    ensures out.disposals == [] <==> !index.Has(key)
  {
    if index.Has(key) then Evict(list, index, key) else Outcome(list, index, [])
  }

  /** What `get(key)` returns: the stored entry when present and not expired. */
  function GetResult<V>(maxAge: nat, index: Index<V>, key: string, now: int): (r: Option<Entry<V>>)
    ensures r.Some? <==> index.Has(key) && !IsExpired(maxAge, index.entries[key], now)
    ensures r.Some? ==> r.value == index.entries[key]
  {
    if index.Has(key) then
      var node := index.entries[key];
      if IsExpired(maxAge, node, now) then None else Some(node)
    else
      None
  }

  // ---------------------------------------------------------------------
  // Properties of the operations

  /** Evicting a present key: list and index stay consistent and lose exactly
      that key, the node holding it leaves the list and the others keep their
      relative order, and the key's entry is reported once. */
  lemma EvictSpec<V>(list: seq<Entry<V>>, index: Index<V>, key: string)
    requires Consistent(list, index) && index.Has(key)
    ensures var out := Evict(list, index, key);
      && Consistent(out.list, out.index)
      && !out.index.Has(key)
      && out.index.entries == index.entries - {key}
      && |out.list| == |list| - 1
      && (exists i :: 0 <= i < |list| && list[i].key == key && out.list == list[..i] + list[i + 1..])
      && out.disposals == [(key, index.entries[key].value)]
  {
    var out := Evict(list, index, key);
    IndexKeysMatch(list, index, key);
    RemoveConsistent(list, index, key);
    RemoveKeys(list, key);
    var i := IndexOf(Keys(list), key);
    assert list[i].key == key && out.list == list[..i] + list[i + 1..];
  }

  /** Trimming removes the least recent entry: the tail leaves the list, the
      rest keeps its order, its key leaves the index, it is reported once,
      and list and index stay consistent. */
  lemma TrimSpec<V>(list: seq<Entry<V>>, index: Index<V>)
    requires Consistent(list, index) && list != []
    ensures var out := TrimStep(list, index);
      && Consistent(out.list, out.index)
      && out.list == list[..|list| - 1]
      && out.index.entries == index.entries - {list[|list| - 1].key}
      && out.disposals == [(list[|list| - 1].key, list[|list| - 1].value)]
  {
    RemoveLastIsRemove(list);
    IndexKeysMatch(list, index, Last(list).key);
    RemoveConsistent(list, index, Last(list).key);
  }

  /** `set` keeps the invariant and the capacity bound, and when the capacity
      is positive the key maps to the new entry, which is at the head. */
  lemma SetKeepsInvariant<V>(maxSize: nat, list: seq<Entry<V>>, index: Index<V>, e: Entry<V>)
    requires Consistent(list, index) && |list| <= maxSize
    ensures var out := SetStep(maxSize, list, index, e);
      && Consistent(out.list, out.index)
      && |out.list| <= maxSize
      && (maxSize > 0 ==> out.list != [] && out.list[0] == e && out.index.Has(e.key) && out.index.entries[e.key] == e)
  {
    ConsistentSize(list, index);
    if index.Has(e.key) {
      EvictSpec(list, index, e.key);
      var out := Evict(list, index, e.key);
      AddFirstConsistent(out.list, out.index, e);
    } else {
      AddFirstConsistent(list, index, e);
      var grown := index.Set(e.key, e);
      var l := AddFirst(list, e);
      ConsistentSize(l, grown);
      if grown.Size() > maxSize {
        TrimSpec(l, grown);
        if maxSize > 0 {
          assert l[|l| - 1].key != e.key by {
            assert Keys(l)[0] == e.key && Keys(l)[|l| - 1] == l[|l| - 1].key;
          }
        }
      }
    }
  }

  /** `set` on a present key reports the old entry once, moves the key to the
      end of the index's insertion order, keeps the size and does not trim. */
  lemma SetOverwrite<V>(maxSize: nat, list: seq<Entry<V>>, index: Index<V>, e: Entry<V>)
    requires Consistent(list, index) && index.Has(e.key)
    ensures e.key in Keys(list)
    ensures var out := SetStep(maxSize, list, index, e);
      && |out.list| == |list|
      && out.list == [e] + Remove(list, e.key)
      && out.disposals == [(e.key, index.entries[e.key].value)]
      && out.index.entries == index.entries[e.key := e]
      && out.index.order == RemoveAt(index.order, IndexOf(index.order, e.key)) + [e.key]
  {
    EvictSpec(list, index, e.key);
    ReinsertMovesToEnd(index, e.key, e);
  }

  /** `set` on a new key below capacity adds it at the head and at the end of
      the insertion order, grows the size by one and reports nothing. */
  lemma SetInsert<V>(maxSize: nat, list: seq<Entry<V>>, index: Index<V>, e: Entry<V>)
    requires Consistent(list, index) && !index.Has(e.key) && |list| < maxSize
    ensures var out := SetStep(maxSize, list, index, e);
      && out.list == [e] + list
      && out.index.entries == index.entries[e.key := e]
      && out.index.order == index.order + [e.key]
      && out.index.Size() == index.Size() + 1
      && out.disposals == []
  {
    ConsistentSize(list, index);
  }

  /** `set` on a new key at capacity evicts exactly the least recent entry:
      the new entry is at the head, followed by the old list without its
      tail in the same order, and the tail is reported once; the size stays
      the same. */
  lemma SetEvictsTail<V>(maxSize: nat, list: seq<Entry<V>>, index: Index<V>, e: Entry<V>)
    requires Consistent(list, index) && !index.Has(e.key) && |list| == maxSize > 0
    ensures var out := SetStep(maxSize, list, index, e);
      && out.list == [e] + list[..|list| - 1]
      && out.index.entries == index.entries[e.key := e] - {list[|list| - 1].key}
      && list[|list| - 1].key in index.order
      && out.index.order == RemoveAt(index.order + [e.key], IndexOf(index.order, list[|list| - 1].key))
      && out.disposals == [(list[|list| - 1].key, list[|list| - 1].value)]
      && |out.list| == |list|
  {
    var l := AddFirst(list, e);
    var grown := index.Set(e.key, e);
    var tail := list[|list| - 1];
    var out := SetStep(maxSize, list, index, e);
    SetAtCapacity(maxSize, list, index, e);
    assert l[|l| - 1] == tail;
    assert out.list == [e] + list[..|list| - 1] by {
      assert l[..|l| - 1] == [e] + list[..|list| - 1];
    }
    assert tail.key in index.order by {
      assert Keys(list)[|list| - 1] == tail.key;
      IndexKeysMatch(list, index, tail.key);
    }
    assert out.index.order == RemoveAt(index.order + [e.key], IndexOf(index.order, tail.key)) by {
      IndexOfAppend(index.order, tail.key, e.key);
    }
  }

  /** A new key at capacity overflows the index, so `set` trims the grown state. */
  lemma SetAtCapacity<V>(maxSize: nat, list: seq<Entry<V>>, index: Index<V>, e: Entry<V>)
    requires Consistent(list, index) && !index.Has(e.key) && |list| == maxSize
    ensures Consistent(AddFirst(list, e), index.Set(e.key, e))
    ensures SetStep(maxSize, list, index, e) == TrimStep(AddFirst(list, e), index.Set(e.key, e))
  {
    ConsistentSize(list, index);
    AddFirstConsistent(list, index, e);
    ConsistentSize(AddFirst(list, e), index.Set(e.key, e));
  }

  /** `get` on an absent key returns None and changes nothing. */
  lemma GetMiss<V>(maxAge: nat, list: seq<Entry<V>>, index: Index<V>, key: string, now: int)
    requires Consistent(list, index) && !index.Has(key)
    ensures GetResult(maxAge, index, key, now) == None
    ensures GetStep(list, index, key) == Outcome(list, index, [])
  {
  }

  /** `get` on a present key is one-shot: it returns the entry unless expired,
      takes the key out of list and index either way, reports it once, and
      the `get` that follows returns None and changes nothing. */
  lemma GetIsOneShot<V>(maxAge: nat, list: seq<Entry<V>>, index: Index<V>, key: string, now: int, later: int)
    requires Consistent(list, index) && index.Has(key)
    ensures var out := GetStep(list, index, key);
      && GetResult(maxAge, index, key, now) == (if IsExpired(maxAge, index.entries[key], now) then None else Some(index.entries[key]))
      && Consistent(out.list, out.index)
      && |out.list| == |list| - 1
      && out.disposals == [(key, index.entries[key].value)]
      && GetResult(maxAge, out.index, key, later) == None
      && GetStep(out.list, out.index, key) == Outcome(out.list, out.index, [])
  {
    EvictSpec(list, index, key);
  }

  /** Without a maximum age, `get` on a present key always returns its entry. */
  lemma GetWithoutMaxAge<V>(index: Index<V>, key: string, now: int)
    requires index.Has(key)
    ensures GetResult(0, index, key, now) == Some(index.entries[key])
  {
  }

  // ---------------------------------------------------------------------
  // The class

  /** The cache `LRUCache<V>`. */
  class LRUCache<V> {
    /** `MAX_AGE`: 0 means entries never expire. */
    const maxAge: nat
    /** `LRU_SIZE`: the capacity. */
    const maxSize: nat
    /** `LRU_LIST`: head is the most recently set entry. */
    var lruList: seq<Entry<V>>
    /** `CACHE`: key to node, in insertion order. */
    var cache: Index<V>
    /** The `(key, value)` pairs handed to `onDispose`, oldest first. */
    ghost var disposed: seq<(string, V)>

    /** The object invariant: list and index consistent, size within capacity. */
    ghost predicate Valid()
      reads this
    {
      Consistent(lruList, cache) && |lruList| <= maxSize
    }

    constructor (maxAge: nat, maxSize: nat)
      ensures Valid()
      ensures this.maxAge == maxAge && this.maxSize == maxSize
      ensures lruList == [] && cache == Empty() && disposed == []
    {
      this.maxAge := maxAge;
      this.maxSize := maxSize;
      lruList := [];
      cache := Empty();
      disposed := [];
    }

    /** `size`: the index count, which is the length of the list and at most
        the capacity. */
    function Size(): (n: nat)
      reads this
      requires Valid()
      ensures n == |lruList| == |cache.order|
      ensures n <= maxSize
    {
      ConsistentSize(lruList, cache);
      cache.Size()
    }

    /** `get(key)`: returns the entry of a present, unexpired key and None
        otherwise; a present key is taken out and reported whether or not
        it has expired (see GetStep, GetMiss, GetIsOneShot). */
    method Get(key: string, now: int) returns (r: Option<Entry<V>>)
      requires Valid()
      modifies this
      ensures Valid()
      ensures r == GetResult(maxAge, old(cache), key, now)
      ensures var out := GetStep(old(lruList), old(cache), key);
        lruList == out.list && cache == out.index && disposed == old(disposed) + out.disposals
    {
      if cache.Has(key) {
        var node := cache.entries[key];
        if IsExpired(maxAge, node, now) {
          Discard(key);
          return None;
        }
        Discard(key);
        return Some(node);
      }
      return None;
    }

    /** The removal `get` and `set` perform on a present key: the node leaves
        the list, the key leaves the index, and the node's entry is reported. */
    method Discard(key: string)
      requires Valid() && cache.Has(key)
      modifies this
      ensures Valid()
      ensures var out := Evict(old(lruList), old(cache), key);
        lruList == out.list && cache == out.index && disposed == old(disposed) + out.disposals
    {
      var node := cache.entries[key];
      EvictSpec(lruList, cache, key);
      lruList := Remove(lruList, key);
      cache := cache.Delete(key);
      disposed := disposed + [(node.key, node.value)];
    }

    /** `set(key, value)`: always returns true; the new state is SetStep's
        (see SetKeepsInvariant, SetOverwrite, SetInsert, SetEvictsTail). */
    method Set(key: string, value: V, now: int) returns (ok: bool)
      requires Valid()
      modifies this
      ensures Valid()
      ensures ok
      ensures var out := SetStep(maxSize, old(lruList), old(cache), MakeEntry(maxAge, key, value, now));
        lruList == out.list && cache == out.index && disposed == old(disposed) + out.disposals
    {
      var entry := MakeEntry(maxAge, key, value, now);
      ghost var out := SetStep(maxSize, lruList, cache, entry);
      assert Consistent(out.list, out.index) && |out.list| <= maxSize by {
        SetKeepsInvariant(maxSize, lruList, cache, entry);
      }
      if cache.Has(key) {
        Discard(key);
        assert Consistent(AddFirst(lruList, entry), cache.Set(key, entry)) by {
          AddFirstConsistent(lruList, cache, entry);
        }
        lruList := AddFirst(lruList, entry);
        cache := cache.Set(key, lruList[0]);
        assert lruList == out.list && cache == out.index && disposed == old(disposed) + out.disposals;
        return true;
      }
      assert Consistent(AddFirst(lruList, entry), cache.Set(key, entry)) by {
        AddFirstConsistent(lruList, cache, entry);
      }
      lruList := AddFirst(lruList, entry);
      cache := cache.Set(key, lruList[0]);
      if cache.Size() > maxSize {
        assert out == TrimStep(lruList, cache);
        Trim();
      } else {
        assert out == Outcome(lruList, cache, []);
      }
      return true;
    }

    /** `delete(key)`: takes a present key out and returns true (see
        EvictSpec); the source faults on an absent key. It unbinds the key before
        removing the node, the reverse of `get`, which ends in the same state,
        so it shares Discard. */
    method Delete(key: string) returns (ok: bool)
      requires Valid() && cache.Has(key)
      modifies this
      ensures Valid()
      ensures ok
      ensures var out := Evict(old(lruList), old(cache), key);
        lruList == out.list && cache == out.index && disposed == old(disposed) + out.disposals
    {
      Discard(key);
      return true;
    }

    /** `values()`: the stored values in index insertion order, one per
        entry, without looking at expiry and without changing anything. */
    method Values() returns (vs: seq<V>)
      requires Valid()
      ensures |vs| == |cache.order| == Size()
      ensures forall i :: 0 <= i < |vs| ==> cache.order[i] in cache.entries && vs[i] == cache.entries[cache.order[i]].value
    {
      ConsistentSize(lruList, cache);
      vs := [];
      var i := 0;
      while i < |cache.order|
        invariant 0 <= i <= |cache.order|
        invariant |vs| == i
        invariant forall j :: 0 <= j < i ==> cache.order[j] in cache.entries && vs[j] == cache.entries[cache.order[j]].value
      {
        vs := vs + [cache.entries[cache.order[i]].value];
        i := i + 1;
      }
    }

    /** `trim()`: evicts the tail (see TrimSpec). */
    method Trim()
      requires Consistent(lruList, cache) && lruList != []
      modifies this
      ensures Consistent(lruList, cache)
      ensures var out := TrimStep(old(lruList), old(cache));
        lruList == out.list && cache == out.index && disposed == old(disposed) + out.disposals
    {
      TrimSpec(lruList, cache);
      var node := Last(lruList);
      lruList := RemoveLast(lruList);
      cache := cache.Delete(node.key);
      disposed := disposed + [(node.key, node.value)];
    }
  }
}
