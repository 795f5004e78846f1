/**
 * What the LRU cache of simplecache.py holds, as a sequence of key/value
 * pairs ordered newest first, and what `get` and `put` do to that sequence.
 * The class in lru_cache.dfy is proved to follow these functions.
 */
module LruSpec {
  import opened Wrappers

  /** The keys, newest first. */
  function Keys<K, V>(c: seq<(K, V)>): (r: seq<K>)
    ensures |r| == |c| && forall i :: 0 <= i < |c| ==> r[i] == c[i].0
  {
    if c == [] then [] else [c[0].0] + Keys(c[1..])
  }

  /** Every key occurs at most once. */
  predicate UniqueKeys<K(==), V>(c: seq<(K, V)>) {
    forall i, j :: 0 <= i < j < |c| ==> c[i].0 != c[j].0
  }

  /** The value stored under `k`, if any. */
  function Lookup<K(==), V>(c: seq<(K, V)>, k: K): (r: Option<V>)
    ensures r.None? <==> forall i :: 0 <= i < |c| ==> c[i].0 != k
    ensures r.Some? ==> (k, r.value) in c
  {
    if c == [] then None
    else if c[0].0 == k then Some(c[0].1)
    else Lookup(c[1..], k)
  }

  /** The pairs whose key is not `k`, in their original order. */
  function Without<K(==), V>(c: seq<(K, V)>, k: K): (r: seq<(K, V)>)
    ensures forall i :: 0 <= i < |r| ==> r[i] in c && r[i].0 != k
    ensures forall i :: 0 <= i < |c| && c[i].0 != k ==> c[i] in r
    ensures |r| <= |c|
  {
    if c == [] then []
    else if c[0].0 == k then Without(c[1..], k)
    else [c[0]] + Without(c[1..], k)
  }

  /**
   * A hit moves the entry to the newest position and keeps every other
   * entry in its relative order; a miss changes nothing.
   */
  function Touch<K(==), V>(c: seq<(K, V)>, k: K): seq<(K, V)> {
    match Lookup(c, k)
    case None => c
    case Some(v) => [(k, v)] + Without(c, k)
  }

  /** The table size a `put` keeps to: `maxsize`, or one when `maxsize` is below one. */
  function Capacity(maxsize: int): (r: nat)
    ensures r >= 1 && r >= maxsize
  {
    if maxsize < 1 then 1 else maxsize
  }

  /** The eviction `put` does first: the oldest entry goes when the table holds `maxsize` or more. */
  function Evict<K(==), V>(c: seq<(K, V)>, maxsize: int): (r: seq<(K, V)>)
    ensures |r| <= |c| && forall i :: 0 <= i < |r| ==> r[i] == c[i]
  {
    if c != [] && |c| >= maxsize then c[..|c| - 1] else c
  }

  /** `put` of a key that is not stored: evict, then link the new entry as newest. */
  function Insert<K(==), V>(c: seq<(K, V)>, k: K, v: V, maxsize: int): seq<(K, V)> {
    [(k, v)] + Evict(c, maxsize)
  }

  /** `s` without position `i`. */
  function Removed<T>(s: seq<T>, i: int): (r: seq<T>)
    requires 0 <= i < |s|
    ensures |r| == |s| - 1
    ensures forall j :: 0 <= j < i ==> r[j] == s[j]
    ensures forall j :: i <= j < |r| ==> r[j] == s[j + 1]
  {
    seq(|s| - 1, j requires 0 <= j < |s| - 1 => if j < i then s[j] else s[j + 1])
  }

  /** With unique keys, removing a key removes exactly the one position that holds it. */
  lemma {:induction false} WithoutAt<K, V>(c: seq<(K, V)>, i: int)
    requires UniqueKeys(c) && 0 <= i < |c|
    ensures Without(c, c[i].0) == Removed(c, i)
  {
    var k := c[i].0;
    if i == 0 {
      WithoutAbsent(c[1..], k);
    } else {
      UniqueTail(c);
      WithoutAt(c[1..], i - 1);
      assert c[1..][i - 1] == c[i];
      RemovedCons(c, i);
    }
  }

  /** Dropping the first pair keeps the keys unique. */
  lemma UniqueTail<K, V>(c: seq<(K, V)>)
    requires UniqueKeys(c) && c != []
    ensures UniqueKeys(c[1..])
  {
    forall a, b | 0 <= a < b < |c[1..]|
      ensures c[1..][a].0 != c[1..][b].0
    {
      assert c[1..][a] == c[a + 1] && c[1..][b] == c[b + 1];
    }
  }

  /** Removing a position after the first keeps the first in front. */
  lemma RemovedCons<T>(c: seq<T>, i: int)
    requires 0 < i < |c|
    ensures Removed(c, i) == [c[0]] + Removed(c[1..], i - 1)
  {
    var r := Removed(c, i);
    var q := [c[0]] + Removed(c[1..], i - 1);
    forall j | 0 < j < |r|
      ensures r[j] == q[j]
    {
      assert q[j] == Removed(c[1..], i - 1)[j - 1];
    }
  }

  /** Removing a key that no pair has changes nothing. */
  lemma {:induction false} WithoutAbsent<K, V>(c: seq<(K, V)>, k: K)
    requires forall i :: 0 <= i < |c| ==> c[i].0 != k
    ensures Without(c, k) == c
  {
    if c != [] {
      WithoutAbsent(c[1..], k);
      assert c == [c[0]] + c[1..];
    }
  }

  /** With unique keys, `Lookup` finds the value at the one position holding the key. */
  lemma {:induction false} LookupAt<K, V>(c: seq<(K, V)>, i: int)
    requires UniqueKeys(c) && 0 <= i < |c|
    ensures Lookup(c, c[i].0) == Some(c[i].1)
  {
    if i > 0 {
      UniqueTail(c);
      LookupAt(c[1..], i - 1);
      assert c[1..][i - 1] == c[i];
    }
  }

  /** Where position `j` of a sequence promoted at `i` comes from. */
  function Source(i: int, j: int): (r: int)
    requires 0 <= i && 0 <= j
    ensures 0 <= r <= i || r == j
  {
    if j == 0 then i else if j <= i then j - 1 else j
  }

  /** The element at position `i` moved to the front, the others kept in order. */
  function Promote<T>(c: seq<T>, i: int): (r: seq<T>)
    requires 0 <= i < |c|
    ensures |r| == |c| && r[0] == c[i]
    ensures forall j :: 0 <= j < i ==> r[j + 1] == c[j]
    ensures forall j :: i < j < |c| ==> r[j] == c[j]
  {
    seq(|c|, j requires 0 <= j < |c| => c[Source(i, j)])
  }

  /** Promoting `i` is putting its element in front of the rest. */
  lemma PromoteRemoved<T>(c: seq<T>, i: int)
    requires 0 <= i < |c|
    ensures Promote(c, i) == [c[i]] + Removed(c, i)
  {
    var r := [c[i]] + Removed(c, i);
    forall j | 0 < j < |c|
      ensures Promote(c, i)[j] == r[j]
    {
      assert r[j] == Removed(c, i)[j - 1];
    }
  }

  /** A hit on the key at position `i` is the promotion of that position. */
  lemma TouchAt<K, V>(c: seq<(K, V)>, i: int)
    requires UniqueKeys(c) && 0 <= i < |c|
    ensures Touch(c, c[i].0) == Promote(c, i)
  {
    LookupAt(c, i);
    WithoutAt(c, i);
    PromoteRemoved(c, i);
  }

  /** The eviction drops the last, oldest, position. */
  lemma EvictRemovesLast<K, V>(c: seq<(K, V)>, maxsize: int)
    requires c != [] && |c| >= maxsize
    ensures Evict(c, maxsize) == Removed(c, |c| - 1)
  {
  }

  /** Removing position `i` is joining what lies before and after it. */
  lemma RemovedSplit<T>(c: seq<T>, i: int)
    requires 0 <= i < |c|
    ensures Removed(c, i) == c[..i] + c[i + 1..]
  {
    var r := c[..i] + c[i + 1..];
    forall j | 0 <= j < |r|
      ensures Removed(c, i)[j] == r[j]
    {
      if j >= i {
        assert r[j] == c[i + 1..][j - i];
      }
    }
  }

  /** Removing position `i` takes exactly one occurrence of `c[i]` out. */
  lemma RemovedMultiset<T>(c: seq<T>, i: int)
    requires 0 <= i < |c|
    ensures multiset(Removed(c, i)) + multiset{c[i]} == multiset(c)
  {
    RemovedSplit(c, i);
    var a, b := c[..i], c[i + 1..];
    assert c[i..] == [c[i]] + b;
    assert c == a + c[i..];
  }

  /** A promotion is a permutation. */
  lemma PromotePermutes<T>(c: seq<T>, i: int)
    requires 0 <= i < |c|
    ensures multiset(Promote(c, i)) == multiset(c)
  {
    PromoteRemoved(c, i);
    RemovedMultiset(c, i);
    assert multiset([c[i]] + Removed(c, i)) == multiset{c[i]} + multiset(Removed(c, i));
  }

  /** A promotion keeps the keys unique. */
  lemma PromoteUnique<K, V>(c: seq<(K, V)>, i: int)
    requires UniqueKeys(c) && 0 <= i < |c|
    ensures UniqueKeys(Promote(c, i))
  {
    var t := Promote(c, i);
    forall a, b | 0 <= a < b < |t|
      ensures t[a].0 != t[b].0
    {
      assert t[a] == c[Source(i, a)] && t[b] == c[Source(i, b)];
    }
  }

  /** A promotion changes the order only: every key finds the value it found before. */
  lemma PromoteLookups<K, V>(c: seq<(K, V)>, i: int, k: K)
    requires UniqueKeys(c) && 0 <= i < |c|
    ensures Lookup(Promote(c, i), k) == Lookup(c, k)
  {
    var t := Promote(c, i);
    if Lookup(c, k).Some? {
      var x :| 0 <= x < |c| && c[x].0 == k;
      LookupAt(c, x);
      PromoteUnique(c, i);
      var y := if x == i then 0 else if x < i then x + 1 else x;
      assert t[y] == c[x];
      LookupAt(t, y);
    } else {
      forall y | 0 <= y < |t|
        ensures t[y].0 != k
      {
        assert t[y] == c[Source(i, y)];
      }
    }
  }

  /** A hit is a rotation of a prefix: the same entries, still with unique keys. */
  lemma TouchPermutes<K, V>(c: seq<(K, V)>, k: K)
    requires UniqueKeys(c)
    ensures multiset(Touch(c, k)) == multiset(c)
    ensures UniqueKeys(Touch(c, k))
    ensures |Touch(c, k)| == |c|
  {
    if Lookup(c, k).Some? {
      var i :| 0 <= i < |c| && c[i].0 == k;
      TouchAt(c, i);
      PromotePermutes(c, i);
      PromoteUnique(c, i);
    }
  }

  /** A hit changes the order only: every key still finds the value it found before. */
  lemma TouchKeepsLookups<K, V>(c: seq<(K, V)>, k: K, j: K)
    requires UniqueKeys(c)
    ensures Lookup(Touch(c, k), j) == Lookup(c, j)
  {
    if Lookup(c, k).Some? {
      var i :| 0 <= i < |c| && c[i].0 == k;
      TouchAt(c, i);
      PromoteLookups(c, i, j);
    }
  }

  /** Touching the newest entry again changes nothing. */
  lemma TouchTwice<K, V>(c: seq<(K, V)>, k: K)
    requires UniqueKeys(c)
    ensures Touch(Touch(c, k), k) == Touch(c, k)
  {
    var t := Touch(c, k);
    TouchPermutes(c, k);
    if Lookup(c, k).Some? {
      LookupAt(t, 0);
      WithoutAt(t, 0);
    }
  }

  /** A new key in front of a prefix of a table with unique keys: still unique. */
  lemma InsertUnique<K, V>(c: seq<(K, V)>, k: K, v: V, maxsize: int)
    requires UniqueKeys(c) && Lookup(c, k).None?
    ensures UniqueKeys(Insert(c, k, v, maxsize))
  {
    var e := Evict(c, maxsize);
    var r := Insert(c, k, v, maxsize);
    forall a, b | 0 <= a < b < |r|
      ensures r[a].0 != r[b].0
    {
      assert r[b] == e[b - 1] == c[b - 1];
      if a > 0 {
        assert r[a] == e[a - 1] == c[a - 1];
      }
    }
  }

  /** A key found among the first `n` pairs is found there with the value it has in the whole. */
  lemma {:induction false} LookupPrefix<K, V>(c: seq<(K, V)>, n: int, j: K)
    requires 0 <= n <= |c|
    ensures Lookup(c[..n], j).Some? ==> Lookup(c[..n], j) == Lookup(c, j)
  {
    if n > 0 && c[0].0 != j {
      LookupPrefix(c[1..], n - 1, j);
      assert c[..n][1..] == c[1..][..n - 1];
    }
  }

  /** After the eviction each key finds what it found before, except the evicted oldest key. */
  lemma EvictLookups<K, V>(c: seq<(K, V)>, maxsize: int, j: K)
    requires UniqueKeys(c)
    ensures Lookup(Evict(c, maxsize), j) ==
              (if c != [] && |c| >= maxsize && j == c[|c| - 1].0 then None else Lookup(c, j))
  {
    if c != [] && |c| >= maxsize {
      var n := |c| - 1;
      var e := c[..n];
      LookupPrefix(c, n, j);
      if j == c[n].0 {
        forall t | 0 <= t < n
          ensures e[t].0 != j
        {
          assert e[t] == c[t];
        }
      } else if Lookup(c, j).Some? {
        var i :| 0 <= i < |c| && c[i] == (j, Lookup(c, j).value);
        assert e[i] == c[i];
      } else {
        forall t | 0 <= t < n
          ensures e[t].0 != j
        {
          assert e[t] == c[t];
        }
      }
    }
  }

  /**
   * `put` of a new key: the key finds its value, every other key finds what
   * it found before unless it was the oldest and was evicted, and the size
   * stays within the capacity.
   */
  lemma InsertLookups<K, V>(c: seq<(K, V)>, k: K, v: V, maxsize: int, j: K)
    requires UniqueKeys(c) && Lookup(c, k).None?
    ensures UniqueKeys(Insert(c, k, v, maxsize))
    ensures Lookup(Insert(c, k, v, maxsize), k) == Some(v)
    ensures j != k && |c| < maxsize ==> Lookup(Insert(c, k, v, maxsize), j) == Lookup(c, j)
    ensures j != k && c != [] && |c| >= maxsize ==>
              Lookup(Insert(c, k, v, maxsize), j) == (if j == c[|c| - 1].0 then None else Lookup(c, j))
    ensures |c| <= Capacity(maxsize) ==> |Insert(c, k, v, maxsize)| <= Capacity(maxsize)
  {
    var e := Evict(c, maxsize);
    var r := Insert(c, k, v, maxsize);
    InsertUnique(c, k, v, maxsize);
    EvictLookups(c, maxsize, j);
    assert r[1..] == e;
  }
}
