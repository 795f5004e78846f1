/**
 * ExpiringCache of simplecache.py: a dict from key to an entry holding the
 * value and the time it expires. Entries are only dropped when `get` meets
 * them after their time, or by `clean`. The clock is the parameter `now`
 * (whole seconds); the semaphore is left out, every method running alone.
 */
module Expiring {
  import opened Wrappers

  /** The dict `{'value': ..., 'expiretime': ...}` that `put` stores. */
  datatype Entry<V> = Entry(value: V, expiretime: int)

  /** What `get` at time `now` answers, expired and missing entries alike giving None. */
  function Fetch<K, V>(m: map<K, Entry<V>>, key: K, now: int): (r: Option<V>)
    ensures r.Some? <==> key in m && now < m[key].expiretime
    ensures r.Some? ==> r.value == m[key].value
  {
    if key !in m then None
    else if now >= m[key].expiretime then None
    else Some(m[key].value)
  }

  /** The table `clean` leaves at time `now`: the entries whose time has not come. */
  function Unexpired<K, V>(m: map<K, Entry<V>>, now: int): (r: map<K, Entry<V>>)
    ensures forall k :: k in r ==> k in m && r[k] == m[k]
    ensures forall k :: k in m ==> (k in r <==> now < m[k].expiretime)
  {
    map k | k in m && now < m[k].expiretime :: m[k]
  }

  /**
   * Cleaning is invisible to `get`: at the time of the clean and at any
   * later time every key finds what it found in the uncleaned table.
   */
  lemma CleanKeepsFetches<K, V>(m: map<K, Entry<V>>, now: int, later: int, key: K)
    requires now <= later
    ensures Fetch(Unexpired(m, now), key, later) == Fetch(m, key, later)
  {
  }

  /** Cleaning twice at the same time is cleaning once. */
  lemma CleanIdempotent<K, V>(m: map<K, Entry<V>>, now: int)
    ensures Unexpired(Unexpired(m, now), now) == Unexpired(m, now)
  {
  }

  /** A value stored at `now` with time to live `ttl` is found until `now + ttl`, and not from then on. */
  lemma FetchAfterStore<K, V>(m: map<K, Entry<V>>, key: K, v: V, now: int, ttl: int, t: int)
    ensures Fetch(m[key := Entry(v, ttl + now)], key, t) == (if t < now + ttl then Some(v) else None)
  {
  }

  class ExpiringCache<K(==), V> {
    var cache: map<K, Entry<V>>
    const defaultExp: int

    constructor (defaultExpirationSeconds: int)
      ensures cache == map[] && defaultExp == defaultExpirationSeconds
    {
      cache := map[];
      defaultExp := defaultExpirationSeconds;
    }

    /**
     * `get` at time `now`: a missing key gives None; an entry whose time
     * has come is deleted and gives None; otherwise the value, the table
     * unchanged.
     */
    method Get(key: K, now: int) returns (r: Option<V>)
      modifies this
      ensures r == Fetch(old(cache), key, now)
      ensures key in old(cache) && now >= old(cache)[key].expiretime ==> cache == old(cache) - {key}
      ensures key !in old(cache) || now < old(cache)[key].expiretime ==> cache == old(cache)
    {
      if key !in cache {
        return None;
      }
      var value := cache[key];
      if now >= value.expiretime {
        cache := cache - {key};
        return None;
      }
      r := Some(value.value);
    }

    /**
     * `put(key, value, **kw)` at time `now`; `keywords` are the names passed
     * in `kw`. Naming `ttlseconds` reaches `kw[ttlseconds]`, whose index is
     * an undefined name: a NameError before anything is stored. Otherwise the
     * default time to live applies: at or below zero nothing is stored, above
     * zero the entry expires at `defaultExp + now`.
     */
    method Put(key: K, value: V, keywords: set<string>, now: int) returns (error: Option<string>)
      modifies this
      ensures "ttlseconds" in keywords ==> error == Some("NameError") && cache == old(cache)
      ensures "ttlseconds" !in keywords && defaultExp <= 0 ==> error == None && cache == old(cache)
      ensures "ttlseconds" !in keywords && defaultExp > 0 ==>
                error == None && cache == old(cache)[key := Entry(value, defaultExp + now)]
    {
      if "ttlseconds" in keywords {
        return Some("NameError");
      }
      var expirationSecs := defaultExp;
      if expirationSecs <= 0 {
        return None;
      }
      var newentry := Entry(value, expirationSecs + now);
      cache := cache[key := newentry];
      error := None;
    }

    /** `clean` at time `now`: deletes exactly the entries whose time has come. */
    method Clean(now: int)
      modifies this
      ensures cache == Unexpired(old(cache), now)
    {
      var keys := cache.Keys;
      ghost var start := cache;
      while keys != {}
        invariant keys <= start.Keys
        invariant forall k :: k in cache <==> k in start && (k in keys || now < start[k].expiretime)
        invariant forall k :: k in cache ==> cache[k] == start[k]
        decreases keys
      {
        var k :| k in keys;
        keys := keys - {k};
        if k in cache {
          var v := cache[k];
          if v.expiretime <= now {
            cache := cache - {k};
          }
        }
      }
    }

    /**
     * `key in cache` at time `now`: the entry is subscripted before its
     * None check, so a missing key is a TypeError; a present one is in
     * exactly when `get` at the same time would find it.
     */
    function Contains(key: K, now: int): (r: Result<bool>)
      reads this
      ensures key !in cache <==> r.Err?
      ensures r.Ok? ==> (r.value <==> Fetch(cache, key, now).Some?)
    {
      if key !in cache then Err("TypeError")
      else if cache[key].expiretime <= now then Ok(false)
      else Ok(true)
    }
  }
}
