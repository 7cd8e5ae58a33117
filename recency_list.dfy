/** The recency list: the doubly-linked list of entries the cache keeps,
    most recently set entry at the head, least recent at the tail. The list
    is a value here; a node is identified by the key of its entry, which the
    cache keeps unique. Only the operations the cache uses are modelled:
    `addFirst`, `remove(node)`, `removeLast` and `last`; `first`, the head
    the cache reads right after `addFirst`, is the list's element 0. */
module Recency {
  import opened Seqs
  import opened Entries

  /** The keys of the entries, head first. */
  function Keys<V>(list: seq<Entry<V>>): (ks: seq<string>)
    ensures |ks| == |list|
    ensures forall i :: 0 <= i < |list| ==> ks[i] == list[i].key
  {
    if list == [] then [] else [list[0].key] + Keys(list[1..])
  }

  /** `addFirst(e)`: e becomes the head, every other node moves one place back. */
  function AddFirst<V>(list: seq<Entry<V>>, e: Entry<V>): (r: seq<Entry<V>>)
    ensures |r| == |list| + 1 && r[0] == e
    ensures forall i :: 0 <= i < |list| ==> r[i + 1] == list[i]
  {
    [e] + list
  }

  /** `last`: the tail node. */
  function Last<V>(list: seq<Entry<V>>): (e: Entry<V>)
    requires list != []
    ensures list == list[..|list| - 1] + [e]
  {
    list[|list| - 1]
  }

  /** `removeLast()`: detaches the tail; the rest keeps its order. */
  function RemoveLast<V>(list: seq<Entry<V>>): (r: seq<Entry<V>>)
    requires list != []
    ensures |r| == |list| - 1
    ensures forall i :: 0 <= i < |r| ==> r[i] == list[i]
  {
    list[..|list| - 1]
  }

  /** `remove(node)` for the node holding key k: detaches it; the other
      nodes keep their relative order. */
  function Remove<V>(list: seq<Entry<V>>, k: string): (r: seq<Entry<V>>)
    requires k in Keys(list)
    ensures |r| == |list| - 1
    ensures exists i :: 0 <= i < |list| && list[i].key == k && r == list[..i] + list[i + 1..]
  {
    var i := IndexOf(Keys(list), k);
    assert list[i].key == k;
    assert RemoveAt(list, i) == list[..i] + list[i + 1..];
    RemoveAt(list, i)
  }

  /** The key-to-entry map a list denotes; with unique keys every entry is
      found under its own key. */
  function MapOf<V>(list: seq<Entry<V>>): (m: map<string, Entry<V>>) {
    if list == [] then map[] else MapOf(list[1..])[list[0].key := list[0]]
  }

  /** The keys of MapOf(list) are the keys of the list. */
  lemma {:induction false} MapOfKeys<V>(list: seq<Entry<V>>)
    ensures forall k :: k in MapOf(list) <==> k in Keys(list)
  {
    if list != [] {
      MapOfKeys(list[1..]);
      assert Keys(list) == [list[0].key] + Keys(list[1..]);
    }
  }

  /** Every entry of MapOf(list) is stored under its own key. */
  lemma {:induction false} MapOfStoresUnderKey<V>(list: seq<Entry<V>>, k: string)
    requires k in MapOf(list)
    ensures MapOf(list)[k].key == k
  {
    if list[0].key != k {
      MapOfStoresUnderKey(list[1..], k);
    }
  }

  /** In a list with unique keys, each node is what MapOf finds under its key. */
  lemma {:induction false} MapOfAt<V>(list: seq<Entry<V>>, i: nat)
    requires Distinct(Keys(list)) && i < |list|
    ensures list[i].key in MapOf(list) && MapOf(list)[list[i].key] == list[i]
  {
    if i > 0 {
      var t := list[1..];
      DistinctTail(list);
      MapOfAt(t, i - 1);
      assert Keys(list)[0] != Keys(list)[i];
    }
  }

  /** With unique keys, MapOf has one binding per node. */
  lemma {:induction false} MapOfSize<V>(list: seq<Entry<V>>)
    requires Distinct(Keys(list))
    ensures |MapOf(list)| == |list|
  {
    if list != [] {
      DistinctTail(list);
      MapOfSize(list[1..]);
      MapOfKeys(list[1..]);
      HeadNotInTail(list);
    }
  }

  /** With unique keys, taking out the node at position i unbinds exactly its key. */
  lemma {:induction false} MapOfRemoveAt<V>(list: seq<Entry<V>>, i: nat)
    requires Distinct(Keys(list)) && i < |list|
    ensures MapOf(RemoveAt(list, i)) == MapOf(list) - {list[i].key}
  {
    var t := list[1..];
    var h := list[0];
    HeadNotInTail(list);
    MapOfKeys(t);
    if i == 0 {
      assert RemoveAt(list, 0) == t;
      UpdateThenRemove(MapOf(t), h.key, h);
    } else {
      var r := RemoveAt(t, i - 1);
      assert RemoveAt(list, i) == [h] + r;
      assert ([h] + r)[1..] == r;
      DistinctTail(list);
      MapOfRemoveAt(t, i - 1);
      assert Keys(list)[0] != Keys(list)[i];
      assert list[i] == t[i - 1];
      RemoveUpdateCommute(MapOf(t), list[i].key, h.key, h);
    }
  }

  lemma UpdateThenRemove<K, W>(m: map<K, W>, a: K, w: W)
    requires a !in m
    ensures m[a := w] - {a} == m
  {
  }

  lemma RemoveUpdateCommute<K, W>(m: map<K, W>, b: K, a: K, w: W)
    requires a != b
    ensures (m - {b})[a := w] == m[a := w] - {b}
  {
  }

  /** Keys of the tail of a list with unique keys are unique. */
  lemma DistinctTail<V>(list: seq<Entry<V>>)
    requires Distinct(Keys(list)) && list != []
    ensures Distinct(Keys(list[1..]))
  {
    var t := Keys(list[1..]);
    forall a, b | 0 <= a < b < |t| ensures t[a] != t[b] {
      assert t[a] == Keys(list)[a + 1] && t[b] == Keys(list)[b + 1];
    }
  }

  /** In a list with unique keys the head's key does not occur in the tail. */
  lemma HeadNotInTail<V>(list: seq<Entry<V>>)
    requires Distinct(Keys(list)) && list != []
    ensures list[0].key !in Keys(list[1..])
  {
    var t := Keys(list[1..]);
    forall j | 0 <= j < |t| ensures t[j] != list[0].key {
      assert t[j] == Keys(list)[j + 1];
    }
  }

  /** Taking a node out of a list commutes with reading off its keys. */
  lemma KeysRemoveAt<V>(list: seq<Entry<V>>, i: nat)
    requires i < |list|
    ensures Keys(RemoveAt(list, i)) == RemoveAt(Keys(list), i)
  {
  }

  /** Adding a node at the head puts its key at the head of the keys. */
  lemma KeysAddFirst<V>(list: seq<Entry<V>>, e: Entry<V>)
    ensures Keys(AddFirst(list, e)) == [e.key] + Keys(list)
  {
  }

  /** Removing the node of a present key from a list with unique keys takes
      out exactly that node: the result is one shorter, its keys are still
      unique, and they are the old keys except k. */
  lemma RemoveKeys<V>(list: seq<Entry<V>>, k: string)
    requires Distinct(Keys(list)) && k in Keys(list)
    ensures |Remove(list, k)| == |list| - 1
    ensures Distinct(Keys(Remove(list, k)))
    ensures forall j :: j in Keys(Remove(list, k)) <==> j in Keys(list) && j != k
  {
    var i := IndexOf(Keys(list), k);
    KeysRemoveAt(list, i);
    RemoveAtDistinct(Keys(list), i);
  }

  /** With unique keys, removing the tail is removing the node of the tail's
      key: `trim` relies on this to delete the right index slot. */
  lemma RemoveLastIsRemove<V>(list: seq<Entry<V>>)
    requires list != [] && Distinct(Keys(list))
    ensures Last(list).key in Keys(list)
    ensures RemoveLast(list) == Remove(list, Last(list).key)
  {
    var n := |list| - 1;
    assert Keys(list)[n] == Last(list).key;
    IndexOfDistinct(Keys(list), n);
  }
}
