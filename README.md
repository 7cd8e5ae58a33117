# LRU cache engine, modelled in Dafny

This project models `LRUCache<V>`, the TypeScript cache engine in
`src/LRUCache.ts`, and the `Entry<T>` record in `Entry.ts`. The cache is a
bounded key-to-value store built from two structures that must stay in step:

- the recency list `LRU_LIST`, with the most recently set entry at the head;
- the index `CACHE`, a JavaScript `Map` from key to list node.

The model proves that the two stay consistent, that the size never exceeds
the capacity, and what each operation does to list, index and disposals.
The root `LRUCache.ts` holds the same class (its lines 4-108 are identical
to `src/LRUCache.ts`), so one Dafny class models both copies and the rows
below cite `src/`. The root file also holds a demo script (lines 110-126),
which is reproduced as a verified scenario.

Modules:

- `Entries` (`entry.dfy`): the `Entry` datatype, with an optional expiry time.
- `OrderedMaps` (`ordered_map.dfy`): the JavaScript `Map` as the cache uses it.
  It pairs a map with the insertion order of its keys. `set` of a new key
  appends it to the order, `delete` removes it, and `forEach` visits keys in
  that order.
- `Recency` (`recency_list.dfy`): the linked list as a sequence of entries,
  head first, with the library operations the cache calls (`addFirst`,
  `remove`, `removeLast`, `last`). `MapOf` gives the key-to-entry map a list
  denotes.
- `Cache` (`lru_cache.dfy`): the class `LRUCache`, its invariant, and one
  pure step function per operation.
  - Step functions: `Evict`, `TrimStep`, `SetStep`, `GetStep`, `GetResult`.
  - Each method's `ensures` ties the new list, index and dispose log to its
    step function.
  - Lemmas state what the step functions do.
- `Demo` (`demo.dfy`): the demo script as a sequence of method calls on one
  cache of capacity 2 and maximum age 10000.
- `Seqs` (`seqs.dfy`): sequence and map facts shared by the other modules.

The `onDispose` callback is modelled as the ghost log `disposed` of
`(key, value)` pairs, appended at every removal site. The clock (`Date.now()`)
is the `now` argument of `Get` and `Set`. `get` is destructive on both paths,
exactly as written: a present key is removed and disposed whether or not it
has expired.

## Model

| member | source | states |
|---|---|---|
| `Entries.NewEntry` | Entry.ts:2-6 | the constructor stores key and value as given; `expiresAt` is absent when not passed |
| `Entries.WithExpiry` | src/LRUCache.ts:55 | assigning `expiresAt` keeps key and value and sets the expiry time |
| `OrderedMaps.Empty` | src/LRUCache.ts:9 | a new `Map` is empty, with an empty insertion order |
| `OrderedMaps.OrderedMap.Set` | src/LRUCache.ts:71-72 | `Map.set` binds the key; a new key is appended to the insertion order, a present key keeps its place; consistency of order and map is preserved |
| `OrderedMaps.OrderedMap.Delete` | src/LRUCache.ts:84 | `Map.delete` unbinds the key and takes it out of the order, the rest keeping their relative order; an absent key changes nothing |
| `OrderedMaps.OrderedMap.Size` | src/LRUCache.ts:74 | `Map.size`, the number of bindings, read by the `size` getter (line 26) and by the test that decides `trim`; it is 0 exactly for the empty map |
| `OrderedMaps.OrderedMap.Has` | src/LRUCache.ts:30 | `Map.has` holds exactly for the keys in the insertion order of a consistent map |
| `OrderedMaps.SizeIsOrderLength` | src/LRUCache.ts:25-27 | `Map.size` equals the number of keys in the insertion order |
| `OrderedMaps.ReinsertMovesToEnd` | src/LRUCache.ts:61-66 | deleting a present key and setting it again moves it to the end of the insertion order and rebinds it |
| `Recency.AddFirst` | src/LRUCache.ts:65 | `addFirst` puts the entry at the head and shifts every other node back by one |
| `Recency.Last` | src/LRUCache.ts:102 | `last` is the tail node of the (non-empty) list: the list is its other nodes followed by it |
| `Recency.RemoveLast` | src/LRUCache.ts:104 | `removeLast` drops the tail and keeps the rest in order |
| `Recency.Remove` | src/LRUCache.ts:41 | `remove(node)` drops one node carrying the key and keeps the nodes before and after it in order; the list gets one shorter |
| `Recency.RemoveKeys` | src/LRUCache.ts:41 | `remove(node)` on a list with unique keys removes exactly that node: one shorter, keys still unique, all other keys kept |
| `Recency.RemoveLastIsRemove` | src/LRUCache.ts:102-105 | removing the tail is removing the node of the tail's key, so `trim` deletes the right index slot |
| `Recency.MapOfRemoveAt` | src/LRUCache.ts:41-42 | removing a node from a list with unique keys unbinds exactly its key in the map the list denotes |
| `Cache.IsExpired` | src/LRUCache.ts:97-99 | expired exactly when a maximum age is set and the clock is strictly past `expiresAt`; never without a maximum age or an expiry time |
| `Cache.MakeEntry` | src/LRUCache.ts:52-56 | `set` builds an entry with the given key and value, stamped `now + maxAge` only when `maxAge > 0` |
| `Cache.ExpiryWindow` | src/LRUCache.ts:54-56 | an entry set at time t is expired at time now exactly when `maxAge > 0` and more than maxAge has passed since t |
| `Cache.Consistent` | src/LRUCache.ts:71-72 | the invariant every operation keeps: no key twice in the list, the index in step with its insertion order, and the index binding exactly the list's keys, each to its node's entry (a predicate; its consequences are the next three rows) |
| `Cache.ConsistentSize` | src/LRUCache.ts:25-27 | under the invariant, the index count equals the list length and the insertion-order length |
| `Cache.IndexKeysMatch` | src/LRUCache.ts:66 | under the invariant, the index holds exactly the list's keys, and each entry is stored under its own key |
| `Cache.NodeIsIndexed` | src/LRUCache.ts:72 | under the invariant, every list node is what the index holds under the node's key |
| `Cache.RemoveConsistent` | src/LRUCache.ts:41-42 | removing a present key from list and index keeps them consistent |
| `Cache.AddFirstConsistent` | src/LRUCache.ts:71-72 | adding a new key's entry at the head and under its key keeps list and index consistent |
| `Cache.Evict` | src/LRUCache.ts:41-43 | the removal shared by `get` (also lines 34-36), `set` (61-63) and `delete` (84-86): the key leaves the index, the list loses one node, the invariant holds, and exactly the key's stored `(key, value)` is disposed |
| `Cache.TrimStep` | src/LRUCache.ts:101-107 | `trim` unbinds the tail's key, shortens the list by one, and disposes the tail's `(key, value)` once |
| `Cache.SetStep` | src/LRUCache.ts:51-79 | `set` disposes at most one entry: the old entry of a present key, and nothing for a new key below capacity |
| `Cache.GetStep` | src/LRUCache.ts:29-48 | after `get` the key is absent and the invariant holds; something is disposed exactly when the key was present |
| `Cache.GetResult` | src/LRUCache.ts:29-49 | `get` returns the stored entry exactly when the key is present and not expired, and null otherwise |
| `Cache.EvictSpec` | src/LRUCache.ts:81-89 | removing a present key keeps the invariant, unbinds exactly that key, removes exactly its node with the others in order, and disposes its `(key, value)` once |
| `Cache.TrimSpec` | src/LRUCache.ts:101-107 | `trim` removes exactly the tail, keeps the rest in order, unbinds the tail's key, disposes it once, and keeps the invariant |
| `Cache.SetKeepsInvariant` | src/LRUCache.ts:51-79 | `set` keeps the invariant and `size <= maxSize`; with positive capacity the new entry is at the head and the key maps to it |
| `Cache.SetOverwrite` | src/LRUCache.ts:58-69 | `set` on a present key disposes the old entry once, puts the new one at the head with the old node removed, keeps the size, re-appends the key to the insertion order, and does not trim |
| `Cache.SetInsert` | src/LRUCache.ts:71-78 | `set` on a new key below capacity adds it at the head and at the end of the insertion order, grows the size by one, and disposes nothing |
| `Cache.SetEvictsTail` | src/LRUCache.ts:71-76 | `set` on a new key at capacity evicts exactly the least recent entry, keeps the others in order behind the new head, disposes the tail once, and keeps the size |
| `Cache.SetAtCapacity` | src/LRUCache.ts:74-75 | a new key at capacity pushes the size over the limit, so `set` calls `trim` on the grown state |
| `Cache.GetMiss` | src/LRUCache.ts:29-48 | `get` on an absent key returns null and changes nothing: no disposal, same list, same index |
| `Cache.GetIsOneShot` | src/LRUCache.ts:30-45 | `get` on a present key returns the entry unless expired, removes it either way, disposes it once, and the following `get` returns null and changes nothing |
| `Cache.GetWithoutMaxAge` | src/LRUCache.ts:97-98 | without a maximum age, `get` on a present key always returns its entry |
| `Cache.LRUCache.Valid` | src/LRUCache.ts:71-76 | the class invariant: list and index consistent and the size at most the capacity; established by the constructor and kept by every public method |
| `Cache.LRUCache.constructor` | src/LRUCache.ts:11-23 | a new cache stores its maximum age and capacity and starts empty and consistent |
| `Cache.LRUCache.Size` | src/LRUCache.ts:25-27 | `size` is the index count, equal to the list length and at most the capacity |
| `Cache.LRUCache.Get` | src/LRUCache.ts:29-49 | `get` returns `GetResult` and leaves the state `GetStep` gives, keeping the invariant |
| `Cache.LRUCache.Discard` | src/LRUCache.ts:41-43 | the removal `get` and `set` share: the node leaves the list, the key leaves the index, the entry is disposed |
| `Cache.LRUCache.Set` | src/LRUCache.ts:51-79 | `set` always returns true and leaves the state `SetStep` gives, keeping the invariant |
| `Cache.LRUCache.Delete` | src/LRUCache.ts:81-89 | `delete` of a present key returns true and leaves the state `Evict` gives, keeping the invariant |
| `Cache.LRUCache.Values` | src/LRUCache.ts:91-95 | `values` lists one value per index key, in insertion order, without expiry check and without changing anything |
| `Cache.LRUCache.Trim` | src/LRUCache.ts:101-107 | `trim` leaves the state `TrimStep` gives and keeps list and index consistent |
| `Demo.FirstSet` | LRUCache.ts:118 | `set('1', '1')` on the empty cache stores the entry and disposes nothing |
| `Demo.SecondSet` | LRUCache.ts:119 | `set('2', '2')` puts the entry at the head and appends the key to the insertion order |
| `Demo.ThirdSet` | LRUCache.ts:120 | `set('3', '3')` puts the new entry at the head and pushes entry '1' out of the list |
| `Demo.ThirdSetIndex` | LRUCache.ts:120 | after `set('3', '3')` the index holds keys '2', '3' in that order, and ('1', '1') is disposed |
| `Demo.FourthSet` | LRUCache.ts:121 | `set('3', '4')` disposes ('3', '3'), keeps two entries, and leaves the insertion order '2', '3' |
| `Demo.FinalGet` | LRUCache.ts:126 | `get('3')` within the maximum age returns entry ('3', '4'), removes it and disposes it |
| `Demo.FillPastCapacity` | LRUCache.ts:110-120 | after the first three `set` calls with capacity 2, the list is '3', '2', the index holds '2', '3', and ('1', '1') has been disposed |
| `Demo.OverwriteAndList` | LRUCache.ts:121-124 | the overwrite disposes ('3', '3') and `values()` then returns ['2', '4'] |
| `Demo.ReadBack` | LRUCache.ts:126 | the final `get('3')` returns ('3', '4') with its expiry time, disposes it, and leaves size 1 |
| `Demo.Scenario` | LRUCache.ts:110-126 | the whole demo: keys {'2', '3'} after the eviction, values ['2', '4'], `get('3')` returns ('3', '4'), size 1, and disposals ('1','1'), ('3','3'), ('3','4') in that order |

## Left out

- The `data-structures` linked-list library is not part of this model. Its nodes are modelled as the entries of a sequence: a node is known by its key, which the cache keeps unique. Nothing is claimed about `remove(undefined)`.
- The index stores node handles in the source; here it stores the node's entry. The invariant says that entry is the list node's, so every lookup through `node.item` reads the same data.
- `Date.now()` is the real clock; `Get` and `Set` take the reading as `now`. Nothing relates successive readings.
- The `onDispose` callback is not executed. Whether it throws, whether it is present at all (`this.ON_DISPOSE && ...`), and what it prints are not modelled. The ghost log records every call the source would make when a callback is given.
- `console.log` output in the demo is I/O and is left out. The demo's values are returned from `Demo.Scenario` instead.
- JavaScript `undefined` coercions in the constructor are left out. For example, an absent `maxSize` makes `size > undefined` always false, so the cache would grow without bound. `maxAge` and `maxSize` are taken as natural numbers; `maxSize` 0 is allowed and makes every `set` of a new key evict that key at once.
- `Cache.LRUCache.Delete` requires the key to be present: on an absent key the source calls `CACHE.delete` and `LRU_LIST.remove(undefined)`, whose behaviour is not modelled, and then throws on `node.item` of `undefined`. That path is not modelled.
- Aliasing of the returned `Entry` object is not modelled: entries are values, so a caller mutating `expiresAt` on the object `get` returned is outside the model.
- The `V = string` default type argument is not modelled; `V` is a plain type parameter and the demo uses `string`.
