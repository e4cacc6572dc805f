/** The LSM engine's replicator: a concurrent hash map of keys to values with
    single and batch writes, batch reads, and an inclusive range read under
    `String.compareTo`. */
module LsmReplicator {
  import opened Wrappers
  import opened Bytes
  import JavaString

  /** The exception `ConcurrentHashMap` throws for a `null` value. */
  datatype RuntimeError = NullPointerException

  /** The entries of a `Map<String, byte[]>` in its iteration order; a
      `None` value is a `null` array. */
  type Entries = seq<(string, Option<JBytes>)>

  /** A map holds each key once. */
  predicate DistinctKeys(entries: Entries) {
    forall i, j :: 0 <= i < j < |entries| ==> entries[i].0 != entries[j].0
  }

  function KeysOf(entries: Entries): set<string> {
    set i | 0 <= i < |entries| :: entries[i].0
  }

  lemma KeysOfSnoc(entries: Entries, i: nat)
    requires i < |entries|
    ensures KeysOf(entries[..i + 1]) == KeysOf(entries[..i]) + {entries[i].0}
  {
    var a, b := entries[..i + 1], entries[..i];
    assert forall j :: 0 <= j < i ==> a[j] == b[j];
    assert a[i] == entries[i];
  }

  /** How many leading entries carry a value: `putAll` stores these one by
      one and throws at the first `null`. */
  function NonNullPrefix(entries: Entries): (n: nat)
    ensures n <= |entries|
    ensures forall i :: 0 <= i < n ==> entries[i].1.Some?
    ensures n < |entries| ==> entries[n].1.None?
    decreases |entries|
  {
    if entries == [] || entries[0].1.None? then 0
    else
      var m := NonNullPrefix(entries[1..]);
      assert forall i :: 1 <= i < m + 1 ==> entries[i] == entries[1..][i - 1];
      m + 1
  }

  /** The map `after` is `before` with every entry ahead of the first
      `null` value stored, and no other key changed. */
  ghost predicate BatchStored(before: map<string, JBytes>, after: map<string, JBytes>, entries: Entries) {
    var n := NonNullPrefix(entries);
    && (forall i :: 0 <= i < n ==> entries[i].0 in after && after[entries[i].0] == entries[i].1.value)
    && (forall k :: k !in KeysOf(entries[..n]) ==> (k in after <==> k in before) && (k in after ==> after[k] == before[k]))
  }

  /** `startKey <= k <= endKey`, written as the source compares:
      `k.compareTo(startKey) >= 0 && k.compareTo(endKey) <= 0`. */
  predicate InRange(k: string, startKey: string, endKey: string) {
    JavaString.CompareTo(k, startKey) >= 0 && JavaString.CompareTo(k, endKey) <= 0
  }

  /** A key can be in range only when the bounds are in order, so a range
      whose start sorts after its end is empty. */
  lemma InRangeOrdered(k: string, startKey: string, endKey: string)
    requires InRange(k, startKey, endKey)
    ensures JavaString.LessEq(startKey, endKey)
  {
    JavaString.CmpFlip(JavaString.Utf16(k), JavaString.Utf16(startKey));
    JavaString.LessEqTrans(startKey, k, endKey);
  }

  class Replicator {
    /** The `ConcurrentHashMap` named `memtable` in the source. */
    var store: map<string, JBytes>

    /** `new Replicator(dataDir)`: the directory is only remembered. */
    constructor()
      ensures store == map[]
    {
      store := map[];
    }

    /** `get(key)`: the stored value, or `null` when the key was never
        stored. */
    function Get(key: string): (r: Option<JBytes>)
      reads this
      ensures r.Some? <==> key in store
      ensures r.Some? ==> r.value == store[key]
    {
      if key in store then Some(store[key]) else None
    }

    /** `put(key, value)`: later `get(key)` returns `value`; every other key
        is unchanged. */
    method Put(key: string, value: JBytes)
      modifies this
      ensures store == old(store)[key := value]
      ensures Get(key) == Some(value)
      ensures forall k :: k != key ==> Get(k) == old(Get(k))
    {
      store := store[key := value];
    }

    /** `putBatch(entries)` is `putAll`: each entry is stored in iteration
        order, overwriting an earlier value, until a `null` value throws
        `NullPointerException` with the earlier entries already stored. */
    method PutBatch(entries: Entries) returns (r: Outcome<RuntimeError>)
      requires DistinctKeys(entries)
      modifies this
      ensures r.Pass? <==> NonNullPrefix(entries) == |entries|
      ensures BatchStored(old(store), store, entries)
    {
      var i := 0;
      while i < |entries| && entries[i].1.Some?
        invariant 0 <= i <= NonNullPrefix(entries)
        invariant forall j :: 0 <= j < i ==> entries[j].0 in store && store[entries[j].0] == entries[j].1.value
        invariant forall k :: k !in KeysOf(entries[..i]) ==>
          (k in store <==> k in old(store)) && (k in store ==> store[k] == old(store)[k])
      {
        KeysOfSnoc(entries, i);
        store := store[entries[i].0 := entries[i].1.value];
        i := i + 1;
      }
      r := if i < |entries| then Fail(NullPointerException) else Pass;
    }

    /** `getBatch(keys)`: exactly the requested keys that are stored, with
        their values; a missing key is left out, not mapped to `null`. */
    method GetBatch(keys: seq<string>) returns (result: map<string, JBytes>)
      ensures forall k :: k in result <==> k in keys && k in store
      ensures forall k :: k in result ==> result[k] == store[k]
    {
      result := map[];
      var i := 0;
      while i < |keys|
        invariant 0 <= i <= |keys|
        invariant forall k :: k in result <==> k in keys[..i] && k in store
        invariant forall k :: k in result ==> result[k] == store[k]
      {
        assert keys[..i + 1] == keys[..i] + [keys[i]];
        if keys[i] in store {
          result := result[keys[i] := store[keys[i]]];
        }
        i := i + 1;
      }
      assert keys[..|keys|] == keys;
    }

    /** `getRange(startKey, endKey)`: exactly the stored entries whose key
        lies between the bounds, both inclusive; nothing when the start sorts
        after the end. */
    method GetRange(startKey: string, endKey: string) returns (result: map<string, JBytes>)
      ensures forall k :: k in result <==> k in store && InRange(k, startKey, endKey)
      ensures forall k :: k in result ==> result[k] == store[k]
      ensures JavaString.CompareTo(startKey, endKey) > 0 ==> result == map[]
    {
      result := map[];
      var rest := store.Keys;
      while rest != {}
        invariant rest <= store.Keys
        invariant forall k :: k in result <==> k in store && k !in rest && InRange(k, startKey, endKey)
        invariant forall k :: k in result ==> result[k] == store[k]
        decreases rest
      {
        var k :| k in rest;
        if InRange(k, startKey, endKey) {
          result := result[k := store[k]];
        }
        rest := rest - {k};
      }
      forall k | k in result
        ensures JavaString.LessEq(startKey, endKey)
      {
        InRangeOrdered(k, startKey, endKey);
      }
    }
  }
}
