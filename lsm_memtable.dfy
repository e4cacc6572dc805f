/** The LSM engine's in-memory table: a sorted map from key to the latest
    value, where a delete removes the key outright (no tombstone is kept). */
module LsmMemTable {
  import opened Wrappers
  import opened Bytes

  class MemTable {
    /** The skip-list map; its ordering plays no part in any operation here. */
    var entries: map<string, JBytes>

    constructor()
      ensures entries == map[]
    {
      entries := map[];
    }

    /** `get(key)`: the stored value, or `null` for a key that is absent. */
    function Get(key: string): (r: Option<JBytes>)
      reads this
      ensures r.Some? <==> key in entries
      ensures r.Some? ==> r.value == entries[key]
    {
      if key in entries then Some(entries[key]) else None
    }

    /** `put(key, value)` replaces any earlier value of `key` and touches no
        other key. */
    method Put(key: string, value: JBytes)
      modifies this
      ensures entries == old(entries)[key := value]
      ensures Get(key) == Some(value)
      ensures forall k :: k != key ==> Get(k) == old(Get(k))
    {
      entries := entries[key := value];
    }

    /** `delete(key)` removes the entry, so a later `get(key)` is `null`, and
        touches no other key. */
    method Delete(key: string)
      modifies this
      ensures entries == old(entries) - {key}
      ensures Get(key) == None
      ensures forall k :: k != key ==> Get(k) == old(Get(k))
    {
      entries := entries - {key};
    }

    /** `recoverFromWAL(wal)` replays nothing: the table is left as it is. */
    method RecoverFromWAL()
      ensures entries == old(entries)
    {
    }
  }
}
