/**
 * SimpleCache of simplecache.py: a dict the methods read and replace. The
 * random `cacheid` and the commented-out logging are left out.
 */
module Cache {
  import opened Wrappers

  /** `dict.get(key)`: the stored entry, or None. */
  function Find<K, V>(m: map<K, V>, key: K): (r: Option<V>)
    ensures r.Some? <==> key in m
    ensures r.Some? ==> r.value == m[key]
  {
    if key in m then Some(m[key]) else None
  }

  /** Storing under `key` changes what `key` finds and nothing else. */
  lemma FindAfterStore<K, V>(m: map<K, V>, key: K, entry: V, other: K)
    ensures Find(m[key := entry], key) == Some(entry)
    ensures other != key ==> Find(m[key := entry], other) == Find(m, other)
  {
  }

  class SimpleCache<K(==), V> {
    var cache: map<K, V>

    constructor ()
      ensures cache == map[]
    {
      cache := map[];
    }

    /** `get`: the entry last stored under `key`, None when there is none. */
    method Get(key: K) returns (r: Option<V>)
      ensures r == Find(cache, key)
    {
      var c := cache;
      if key in c {
        r := Some(c[key]);
      } else {
        r := None;
      }
    }

    /** `put`: `key` now finds `entry`, every other key what it found before. */
    method Put(key: K, entry: V)
      modifies this
      ensures cache == old(cache)[key := entry]
      ensures Find(cache, key) == Some(entry)
      ensures forall k :: k != key ==> Find(cache, k) == Find(old(cache), k)
    {
      cache := cache[key := entry];
    }

    /** `clear`: a fresh, empty dict. */
    method Clear()
      modifies this
      ensures cache == map[]
      ensures forall k :: Find(cache, k).None?
    {
      cache := map[];
    }

    /** `key in cache`: true exactly when `get` would find an entry. */
    predicate Contains(key: K)
      reads this
      ensures Contains(key) <==> Find(cache, key).Some?
    {
      key in cache
    }
  }
}
