/** The scenario at the end of LRUCache.ts: a cache of capacity 2 with a
    maximum age of 10000 ms, four `set` calls, a `values()` and a `get`.
    The clock readings of the five timed calls are parameters; the only thing
    the outcome depends on is that the final `get` happens within 10000 ms
    of the last `set`. */
module Demo {
  import opened Entries
  import opened OrderedMaps
  import opened Seqs
  import opened Recency
  import opened Cache

  /** A one-entry cache is consistent. */
  lemma SingleConsistent(a: Entry<string>)
    ensures Consistent([a], OrderedMap([a.key], map[a.key := a]))
  {
    assert Keys([a]) == [a.key];
    assert [a][1..] == [];
  }

  /** A two-entry cache with a the most recent and b inserted first is consistent. */
  lemma PairConsistent(a: Entry<string>, b: Entry<string>)
    requires a.key != b.key
    ensures Consistent([a, b], OrderedMap([b.key, a.key], map[b.key := b, a.key := a]))
  {
    SingleConsistent(b);
    assert Keys([a, b]) == [a.key, b.key];
    assert [a, b][1..] == [b];
    assert MapOf([a, b]) == map[b.key := b][a.key := a];
  }

  /** `set("1", "1")` on the empty cache stores its entry and reports nothing. */
  lemma FirstSet(e1: Entry<string>)
    ensures Consistent<string>([], Empty())
    ensures SetStep<string>(2, [], Empty(), e1) == Outcome([e1], OrderedMap([e1.key], map[e1.key := e1]), [])
  {
    SetInsert<string>(2, [], Empty(), e1);
  }

  /** `set("2", "2")` goes to the head and to the end of the insertion order. */
  lemma SecondSet(e1: Entry<string>, e2: Entry<string>)
    requires e1.key != e2.key
    ensures Consistent([e1], OrderedMap([e1.key], map[e1.key := e1]))
    ensures SetStep(2, [e1], OrderedMap([e1.key], map[e1.key := e1]), e2)
         == Outcome([e2, e1], OrderedMap([e1.key, e2.key], map[e1.key := e1, e2.key := e2]), [])
  {
    SingleConsistent(e1);
    SetInsert(2, [e1], OrderedMap([e1.key], map[e1.key := e1]), e2);
  }

  /** `set("3", "3")` overflows the capacity: the new entry goes to the head
      and the least recent one, e1, leaves the list. */
  lemma ThirdSet(e1: Entry<string>, e2: Entry<string>, e3: Entry<string>)
    requires e1.key != e2.key && e1.key != e3.key && e2.key != e3.key
    requires Consistent([e2, e1], OrderedMap([e1.key, e2.key], map[e1.key := e1, e2.key := e2]))
    ensures var out := SetStep(2, [e2, e1], OrderedMap([e1.key, e2.key], map[e1.key := e1, e2.key := e2]), e3);
      && out.list == [e3, e2]
  {
    var list, index := [e2, e1], OrderedMap([e1.key, e2.key], map[e1.key := e1, e2.key := e2]);
    SetEvictsTail(2, list, index, e3);
    PushOutLast(e3, e2, e1);
  }

  /** The index after the third `set`: e1's key is gone, e3's is appended,
      and e1 is reported. */
  lemma ThirdSetIndex(e1: Entry<string>, e2: Entry<string>, e3: Entry<string>)
    requires e1.key != e2.key && e1.key != e3.key && e2.key != e3.key
    requires Consistent([e2, e1], OrderedMap([e1.key, e2.key], map[e1.key := e1, e2.key := e2]))
    ensures var out := SetStep(2, [e2, e1], OrderedMap([e1.key, e2.key], map[e1.key := e1, e2.key := e2]), e3);
      && out.index == OrderedMap([e2.key, e3.key], map[e2.key := e2, e3.key := e3])
      && out.disposals == [(e1.key, e1.value)]
  {
    var list, index := [e2, e1], OrderedMap([e1.key, e2.key], map[e1.key := e1, e2.key := e2]);
    SetEvictsTail(2, list, index, e3);
    assert IndexOf(index.order, e1.key) == 0;
    DropOldest(e1.key, e2.key, e3.key, e1, e2, e3);
  }

  /** `set("3", "4")` overwrites the key of e3: the old entry is reported, the new
      one goes to the head, and its key is re-appended to the insertion order,
      which here leaves that order as it was. */
  lemma FourthSet(e2: Entry<string>, e3: Entry<string>, e4: Entry<string>)
    requires e2.key != e3.key && e4.key == e3.key
    ensures Consistent([e3, e2], OrderedMap([e2.key, e3.key], map[e2.key := e2, e3.key := e3]))
    ensures SetStep(2, [e3, e2], OrderedMap([e2.key, e3.key], map[e2.key := e2, e3.key := e3]), e4)
         == Outcome([e4, e2], OrderedMap([e2.key, e3.key], map[e2.key := e2, e3.key := e4]), [(e3.key, e3.value)])
  {
    var list, index := [e3, e2], OrderedMap([e2.key, e3.key], map[e2.key := e2, e3.key := e3]);
    PairConsistent(e3, e2);
    SetOverwrite(2, list, index, e4);
    assert Keys(list) == [e3.key, e2.key];
    assert IndexOf(Keys(list), e3.key) == 0;
    assert Remove(list, e3.key) == [e2];
    assert IndexOf(index.order, e3.key) == 1;
    assert RemoveAt(index.order, 1) == [e2.key];
    assert index.entries[e3.key := e4] == map[e2.key := e2, e3.key := e4] by {
      Rebind(e2.key, e3.key, e2, e3, e4);
    }
  }

  /** The final `get("3")` within the maximum age returns the overwriting
      entry and, being one-shot, takes it out and reports it. */
  lemma FinalGet(e2: Entry<string>, e4: Entry<string>, now: int)
    requires e2.key != e4.key && e4.expiresAt.Some? && now <= e4.expiresAt.value
    ensures Consistent([e4, e2], OrderedMap([e2.key, e4.key], map[e2.key := e2, e4.key := e4]))
    ensures GetResult(10000, OrderedMap([e2.key, e4.key], map[e2.key := e2, e4.key := e4]), e4.key, now) == Some(e4)
    ensures GetStep([e4, e2], OrderedMap([e2.key, e4.key], map[e2.key := e2, e4.key := e4]), e4.key)
         == Outcome([e2], OrderedMap([e2.key], map[e2.key := e2]), [(e4.key, e4.value)])
  {
    var list, index := [e4, e2], OrderedMap([e2.key, e4.key], map[e2.key := e2, e4.key := e4]);
    PairConsistent(e4, e2);
    assert Keys(list) == [e4.key, e2.key];
    assert IndexOf(Keys(list), e4.key) == 0;
    assert Remove(list, e4.key) == [e2];
    assert index.entries - {e4.key} == map[e2.key := e2];
    assert IndexOf(index.order, e4.key) == 1;
    assert RemoveAt(index.order, 1) == [e2.key];
  }

  /** The first three `set` calls of the scenario on a fresh cache of
      capacity 2: the third one evicts key "1". */
  method FillPastCapacity(t1: int, t2: int, t3: int) returns (cache: LRUCache<string>)
    ensures fresh(cache) && cache.Valid() && cache.maxAge == 10000 && cache.maxSize == 2
    ensures var e2, e3 := MakeEntry(10000, "2", "2", t2), MakeEntry(10000, "3", "3", t3);
      && cache.lruList == [e3, e2]
      && cache.cache == OrderedMap(["2", "3"], map["2" := e2, "3" := e3])
      && cache.disposed == [("1", "1")]
  {
    ghost var e1, e2, e3 := MakeEntry(10000, "1", "1", t1), MakeEntry(10000, "2", "2", t2),
                           MakeEntry(10000, "3", "3", t3);
    assert "1" != "2" && "1" != "3" && "2" != "3";
    cache := new LRUCache<string>(10000, 2);

    var ok := cache.Set("1", "1", t1);
    assert cache.lruList == [e1] && cache.cache == OrderedMap(["1"], map["1" := e1]) && cache.disposed == [] by {
      FirstSet(e1);
    }

    ok := cache.Set("2", "2", t2);
    assert cache.lruList == [e2, e1] && cache.cache == OrderedMap(["1", "2"], map["1" := e1, "2" := e2])
        && cache.disposed == [] by {
      SecondSet(e1, e2);
    }

    ok := cache.Set("3", "3", t3);
    assert cache.lruList == [e3, e2] && cache.cache == OrderedMap(["2", "3"], map["2" := e2, "3" := e3])
        && cache.disposed == [("1", "1")] by {
      PairConsistent(e2, e1);
      ThirdSet(e1, e2, e3);
      ThirdSetIndex(e1, e2, e3);
    }
  }

  /** `set("3", "4")` overwrites key "3", and `values()` then lists the
      values in insertion order. */
  method OverwriteAndList(cache: LRUCache<string>, t2: int, t3: int, t4: int) returns (vals: seq<string>)
    requires cache.Valid() && cache.maxAge == 10000 && cache.maxSize == 2
    requires cache.lruList == [MakeEntry(10000, "3", "3", t3), MakeEntry(10000, "2", "2", t2)]
    requires cache.cache == OrderedMap(["2", "3"], map["2" := MakeEntry(10000, "2", "2", t2), "3" := MakeEntry(10000, "3", "3", t3)])
    modifies cache
    ensures vals == ["2", "4"]
    ensures cache.Valid()
    ensures var e2, e4 := MakeEntry(10000, "2", "2", t2), MakeEntry(10000, "3", "4", t4);
      && cache.lruList == [e4, e2]
      && cache.cache == OrderedMap(["2", "3"], map["2" := e2, "3" := e4])
      && cache.disposed == old(cache.disposed) + [("3", "3")]
  {
    ghost var e2, e3, e4 := MakeEntry(10000, "2", "2", t2), MakeEntry(10000, "3", "3", t3),
                           MakeEntry(10000, "3", "4", t4);
    assert "2" != "3";
    var ok := cache.Set("3", "4", t4);
    assert cache.lruList == [e4, e2] && cache.cache == OrderedMap(["2", "3"], map["2" := e2, "3" := e4])
        && cache.disposed == old(cache.disposed) + [("3", "3")] by {
      FourthSet(e2, e3, e4);
    }
    vals := cache.Values();
    assert vals == ["2", "4"] by {
      assert |vals| == 2 && vals[0] == e2.value && vals[1] == e4.value;
    }
  }

  /** A `get("3")` within the maximum age returns the entry and takes it out,
      leaving one entry. */
  method ReadBack(cache: LRUCache<string>, t2: int, t4: int, t5: int) returns (got: Option<Entry<string>>, size: nat)
    requires cache.Valid() && cache.maxAge == 10000 && cache.maxSize == 2
    requires cache.lruList == [MakeEntry(10000, "3", "4", t4), MakeEntry(10000, "2", "2", t2)]
    requires cache.cache == OrderedMap(["2", "3"], map["2" := MakeEntry(10000, "2", "2", t2), "3" := MakeEntry(10000, "3", "4", t4)])
    requires t5 <= t4 + 10000
    modifies cache
    ensures got == Some(MakeEntry(10000, "3", "4", t4))
    ensures size == 1
    ensures cache.disposed == old(cache.disposed) + [("3", "4")]
  {
    ghost var e2, e4 := MakeEntry(10000, "2", "2", t2), MakeEntry(10000, "3", "4", t4);
    assert "2" != "3";
    got := cache.Get("3", t5);
    assert got == Some(e4) && cache.lruList == [e2] && cache.disposed == old(cache.disposed) + [("3", "4")] by {
      FinalGet(e2, e4, t5);
    }
    size := cache.Size();
  }

  /** The whole scenario: the keys left after the eviction, the values in
      insertion order, the entry `get` returns, the final size, and the
      (key, value) pairs handed to onDispose. */
  method Scenario(t1: int, t2: int, t3: int, t4: int, t5: int)
    returns (keysAfterEviction: set<string>, vals: seq<string>, got: Option<Entry<string>>, size: nat,
             ghost log: seq<(string, string)>)
    requires t5 <= t4 + 10000
    ensures keysAfterEviction == {"2", "3"}
    ensures vals == ["2", "4"]
    ensures got == Some(Entry("3", "4", Some(t4 + 10000)))
    ensures size == 1
    ensures log == [("1", "1"), ("3", "3"), ("3", "4")]
  {
    var cache := FillPastCapacity(t1, t2, t3);
    keysAfterEviction := cache.cache.entries.Keys;
    vals := OverwriteAndList(cache, t2, t3, t4);
    got, size := ReadBack(cache, t2, t4, t5);
    log := cache.disposed;
  }
}
