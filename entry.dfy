/** The record stored in every node of the recency list (Entry.ts). */
module Entries {

  /** An optional value: the source's `undefined` / `null`. */
  datatype Option<T> = None | Some(value: T)

  /** One cached item. `expiresAt` is an absolute time in milliseconds;
      None stands for the unset optional field, which means "never expires". */
  datatype Entry<V> = Entry(key: string, value: V, expiresAt: Option<int>)

  /** `new Entry(key, value)`: the two-argument construction stores key and
      value as given and leaves expiresAt unset. */
  function NewEntry<V>(key: string, value: V): (e: Entry<V>)
    ensures e.key == key && e.value == value
    ensures e.expiresAt == None
  {
    Entry(key, value, None)
  }

  /** Assigning the public field `expiresAt` after construction changes
      nothing else about the entry. */
  function WithExpiry<V>(e: Entry<V>, at: int): (r: Entry<V>)
    ensures r.key == e.key && r.value == e.value
    ensures r.expiresAt == Some(at)
  {
    e.(expiresAt := Some(at))
  }
}
