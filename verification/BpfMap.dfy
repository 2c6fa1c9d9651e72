/** A kernel hash map with a fixed number of entries, shared by the daemon and the packet program. */
module BpfMap {
  import opened Machine

  class HashMap<V> {
    const maxEntries: nat
    var entries: map<U32, V>

    ghost predicate Valid()
      reads this
    {
      |entries| <= maxEntries
    }

    constructor (maxEntries: nat)
      ensures Valid() && entries == map[] && this.maxEntries == maxEntries
    {
      this.maxEntries := maxEntries;
      entries := map[];
    }

    /** Overwrites a present key; adds an absent one only while there is room. */
    method Insert(key: U32, value: V) returns (ok: bool)
      requires Valid()
      modifies this
      ensures Valid()
      ensures ok <==> key in old(entries) || |old(entries)| < maxEntries
      ensures entries == if ok then old(entries)[key := value] else old(entries)
    {
      ok := key in entries || |entries| < maxEntries;
      if ok {
        assert entries[key := value].Keys == entries.Keys + {key};
        entries := entries[key := value];
      }
    }

    method Remove(key: U32) returns (ok: bool)
      requires Valid()
      modifies this
      ensures Valid()
      ensures ok <==> key in old(entries)
      ensures entries == old(entries) - {key}
    {
      ok := key in entries;
      assert (entries - {key}).Keys == entries.Keys - {key};
      entries := entries - {key};
    }

    method Get(key: U32) returns (value: Option<V>)
      ensures value == if key in entries then Some(entries[key]) else None
    {
      value := if key in entries then Some(entries[key]) else None;
    }

    /** Writes through a pointer to the value of a present key. */
    method Store(key: U32, value: V)
      requires Valid() && key in entries
      modifies this
      ensures Valid() && entries == old(entries)[key := value]
    {
      assert entries[key := value].Keys == entries.Keys;
      entries := entries[key := value];
    }
  }
}
