/**
 * LRUCache of simplecache.py: a dict from key to link plus a circular,
 * doubly linked list of links through a sentinel `root`. `root.older` is the
 * newest entry and `root.newer` the oldest, the one `put` evicts. The links
 * are objects whose two pointers the methods rewire in place; the ghost
 * sequence `order` lists them newest first and ties them to the pure
 * description in LruSpec. The semaphore is left out: every method runs alone.
 */
module Lru {
  import opened Wrappers
  import opened LruSpec

  /** One link `[NEWER, OLDER, KEY, VALUE]`: the pointers change, key and value never do. */
  class Cell<K(0), V(0)> {
    var newer: Cell?<K, V>
    var older: Cell?<K, V>
    const key: K
    const value: V

    /** The root `[None, None, None, None]` once `root[0] = root[1] = root` has run. */
    constructor Root()
      ensures newer == this && older == this
    {
      new;
      newer := this;
      older := this;
    }

    constructor (newer: Cell?<K, V>, older: Cell?<K, V>, key: K, value: V)
      ensures this.newer == newer && this.older == older
      ensures this.key == key && this.value == value
    {
      this.newer := newer;
      this.older := older;
      this.key := key;
      this.value := value;
    }
  }

  /** The key/value pairs the links hold, in the links' order. */
  function Pairs<K(0), V(0)>(cs: seq<Cell<K, V>>): (r: seq<(K, V)>)
    ensures |r| == |cs| && forall i :: 0 <= i < |cs| ==> r[i] == (cs[i].key, cs[i].value)
  {
    seq(|cs|, i requires 0 <= i < |cs| => (cs[i].key, cs[i].value))
  }

  ghost predicate Distinct<T>(s: seq<T>) {
    forall i, j :: 0 <= i < j < |s| ==> s[i] != s[j]
  }

  /** The dict maps each link's key to that link, and holds nothing else. */
  ghost predicate Indexed<K(0), V(0)>(cache: map<K, Cell<K, V>>, order: seq<Cell<K, V>>) {
    && (forall i :: 0 <= i < |order| ==> order[i].key in cache && cache[order[i].key] == order[i])
    && (forall k :: k in cache ==> cache[k] in order && cache[k].key == k)
    && |cache| == |order|
  }

  lemma PairsRemoved<K(0), V(0)>(os: seq<Cell<K, V>>, i: int)
    requires 0 <= i < |os|
    ensures Pairs(Removed(os, i)) == Removed(Pairs(os), i)
  {
  }

  lemma PairsPromote<K(0), V(0)>(os: seq<Cell<K, V>>, i: int)
    requires 0 <= i < |os|
    ensures Pairs(Promote(os, i)) == Promote(Pairs(os), i)
  {
    var a := Pairs(Promote(os, i));
    var b := Promote(Pairs(os), i);
    forall j | 0 <= j < |os|
      ensures a[j] == b[j]
    {
      assert Promote(os, i)[j] == os[Source(i, j)];
    }
  }

  lemma PairsCons<K(0), V(0)>(x: Cell<K, V>, os: seq<Cell<K, V>>)
    ensures Pairs([x] + os) == [(x.key, x.value)] + Pairs(os)
  {
  }

  /** Unlinking the link at `i` and deleting its key keeps the dict and the list in step. */
  lemma IndexedRemove<K(0), V(0)>(cache: map<K, Cell<K, V>>, order: seq<Cell<K, V>>, i: int)
    requires Indexed(cache, order) && Distinct(order) && 0 <= i < |order|
    ensures Indexed(cache - {order[i].key}, Removed(order, i))
  {
    var k := order[i].key;
    var rest := Removed(order, i);
    var c := cache - {k};
    forall j | 0 <= j < |rest|
      ensures rest[j].key in c && c[rest[j].key] == rest[j]
    {
      var oj := if j < i then j else j + 1;
      assert rest[j] == order[oj] && order[oj] != order[i];
    }
    forall x | x in c
      ensures c[x] in rest
    {
      var j :| 0 <= j < |order| && order[j] == cache[x];
      assert j != i;
      assert c[x] == rest[if j < i then j else j - 1];
    }
    assert c.Keys == cache.Keys - {k};
  }

  /** Taking a position out keeps the links distinct and drops exactly that link. */
  lemma DistinctRemove<T>(order: seq<T>, i: int)
    requires Distinct(order) && 0 <= i < |order|
    ensures Distinct(Removed(order, i))
    ensures order[i] !in Removed(order, i)
  {
    var rest := Removed(order, i);
    assert forall j :: 0 <= j < |rest| ==> rest[j] == order[if j < i then j else j + 1];
  }

  /** Moving the link at `i` to the front keeps the links distinct. */
  lemma DistinctPromote<T>(order: seq<T>, i: int)
    requires Distinct(order) && 0 <= i < |order|
    ensures Distinct(Promote(order, i))
  {
    var q := Promote(order, i);
    forall a, b | 0 <= a < b < |q|
      ensures q[a] != q[b]
    {
      assert q[a] == order[Source(i, a)] && q[b] == order[Source(i, b)];
    }
  }

  /** Moving the link at `i` to the front keeps the dict in step. */
  lemma IndexedPromote<K(0), V(0)>(cache: map<K, Cell<K, V>>, order: seq<Cell<K, V>>, i: int)
    requires Indexed(cache, order) && 0 <= i < |order|
    ensures Indexed(cache, Promote(order, i))
  {
    var q := Promote(order, i);
    forall j | 0 <= j < |q|
      ensures q[j].key in cache && cache[q[j].key] == q[j]
    {
      assert q[j] == order[Source(i, j)];
    }
    forall k | k in cache
      ensures cache[k] in q
    {
      var t :| 0 <= t < |order| && order[t] == cache[k];
      var j := if t == i then 0 else if t < i then t + 1 else t;
      assert q[j] == order[t];
    }
  }

  /** Linking a new link in front and storing it under its fresh key keeps the two in step. */
  lemma IndexedCons<K(0), V(0)>(cache: map<K, Cell<K, V>>, order: seq<Cell<K, V>>, x: Cell<K, V>)
    requires Indexed(cache, order) && Distinct(order) && x.key !in cache && x !in order
    ensures Indexed(cache[x.key := x], [x] + order)
    ensures Distinct([x] + order)
  {
    var c := cache[x.key := x];
    var os := [x] + order;
    forall j | 0 <= j < |os|
      ensures os[j].key in c && c[os[j].key] == os[j]
    {
      if j > 0 {
        assert os[j] == order[j - 1];
      }
    }
  }

  /** Distinct links stored under their own keys hold distinct keys. */
  lemma UniquePairs<K(0), V(0)>(cache: map<K, Cell<K, V>>, order: seq<Cell<K, V>>)
    requires Indexed(cache, order) && Distinct(order)
    ensures UniqueKeys(Pairs(order))
  {
    var c := Pairs(order);
    forall i, j | 0 <= i < j < |c|
      ensures c[i].0 != c[j].0
    {
      assert order[i] != order[j];
      assert cache[order[i].key] == order[i] && cache[order[j].key] == order[j];
    }
  }

  /** The `maxsize` keyword: missing or zero (falsy) means 1024. */
  function MaxSize(arg: Option<int>): (r: int)
    ensures arg.Some? && arg.value != 0 ==> r == arg.value
    ensures arg.None? || arg.value == 0 ==> r == 1024
  {
    if arg.None? || arg.value == 0 then 1024 else arg.value
  }

  class LRUCache<K(==, 0), V(0)> {
    var cache: map<K, Cell<K, V>>
    const root: Cell<K, V>
    const maxsize: int
    ghost var order: seq<Cell<K, V>>
    ghost var Repr: set<object>

    /** From `root`, `older` runs through `os` and back to `root`; `newer` is its exact inverse. */
    ghost predicate Ring(os: seq<Cell<K, V>>)
      reads root, os
    {
      && root.older == (if os == [] then root else os[0])
      && root.newer == (if os == [] then root else os[|os| - 1])
      && forall j :: 0 <= j < |os| ==> LinkedAt(os, j)
    }

    /** Position `j` points to its two neighbours, `root` standing beyond either end. */
    ghost predicate LinkedAt(os: seq<Cell<K, V>>, j: int)
      requires 0 <= j < |os|
      reads os
    {
      os[j].older == Next(os, j) && os[j].newer == Prev(os, j)
    }

    /** The neighbour on the newer side of position `i`. */
    ghost function Prev(os: seq<Cell<K, V>>, i: int): Cell<K, V>
      requires 0 <= i < |os|
    {
      if i == 0 then root else os[i - 1]
    }

    /** The neighbour on the older side of position `i`. */
    ghost function Next(os: seq<Cell<K, V>>, i: int): Cell<K, V>
      requires 0 <= i < |os|
    {
      if i + 1 < |os| then os[i + 1] else root
    }

    ghost predicate Valid()
      reads this, Repr
    {
      && this in Repr && root in Repr
      && (forall j :: 0 <= j < |order| ==> order[j] in Repr)
      && root !in order && Distinct(order)
      && Ring(order)
      && Indexed(cache, order)
      && |order| <= Capacity(maxsize)
    }

    /** The entries, newest first. */
    ghost function Contents(): seq<(K, V)>
      reads this
    {
      Pairs(order)
    }

    /** The dict and the list agree: a key is stored exactly when the list holds it, once. */
    lemma ContentsAgree(k: K)
      requires Valid()
      ensures UniqueKeys(Contents())
      ensures k in cache <==> Lookup(Contents(), k).Some?
      ensures k in cache ==> Lookup(Contents(), k) == Some(cache[k].value)
    {
      var c := Contents();
      UniquePairs(cache, order);
      if k in cache {
        var i :| 0 <= i < |order| && order[i] == cache[k];
        LookupAt(c, i);
      }
    }

    constructor (maxsizeArg: Option<int>)
      ensures Valid() && fresh(Repr)
      ensures maxsize == MaxSize(maxsizeArg)
      ensures Contents() == [] && cache == map[]
    {
      maxsize := MaxSize(maxsizeArg);
      root := new Cell.Root();
      cache := map[];
      order := [];
      new;
      Repr := {this, root};
    }

    /** `key in cache`, inherited from SimpleCache. */
    predicate Contains(key: K)
      requires Valid()
      reads this, Repr
      ensures Contains(key) <==> Lookup(Contents(), key).Some?
    {
      ContentsAgree(key);
      key in cache
    }

    /** The two links of position `i` of a ring. */
    lemma RingAt(os: seq<Cell<K, V>>, i: int)
      requires Ring(os) && 0 <= i < |os|
      ensures os[i].older == Next(os, i) && os[i].newer == Prev(os, i)
    {
      assert LinkedAt(os, i);
    }

    /**
     * The pointer surgery `get` and `removeNotThreadSafe` share: the newer
     * neighbour of position `i` now points past it to the older neighbour and
     * back. The unlinked link keeps its own pointers.
     */
    method Unlink(link: Cell<K, V>, ghost os: seq<Cell<K, V>>, ghost i: int)
      requires Ring(os) && Distinct(os) && root !in os
      requires 0 <= i < |os| && os[i] == link
      modifies Prev(os, i), Next(os, i)
      ensures Ring(Removed(os, i))
      ensures Repr == old(Repr) && cache == old(cache) && order == old(order)
    {
      forall j {:trigger Next(os, j)} {:trigger Prev(os, j)} | 0 <= j < |os|
        ensures old(os[j].older) == Next(os, j) && old(os[j].newer) == Prev(os, j)
      {
        RingAt(os, j);
      }
      var prev := link.newer;
      var next := link.older;
      prev.older := next;
      next.newer := prev;
      var rest := Removed(os, i);
      forall j | 0 <= j < |rest|
        ensures LinkedAt(rest, j)
      {
        var oj := if j < i then j else j + 1;
        var c := os[oj];
        assert rest[j] == c && c != root;
        if oj != i - 1 {
          assert c != prev && c.older == old(c.older) && Next(rest, j) == Next(os, oj);
        }
        if oj != i + 1 {
          assert c != next && c.newer == old(c.newer) && Prev(rest, j) == Prev(os, oj);
        }
      }
    }

    /**
     * `removeNotThreadSafe`: no-op for a missing link or the root; otherwise
     * the link at ghost position `i` is unlinked and its key deleted.
     */
    method RemoveNotThreadSafe(link: Cell?<K, V>, ghost i: int)
      requires Valid()
      requires link == null || link == root || (0 <= i < |order| && order[i] == link)
      modifies Repr
      ensures Valid() && Repr == old(Repr)
      ensures link == null || link == root ==> order == old(order) && cache == old(cache)
      ensures link != null && link != root ==>
                && order == old(Removed(order, i))
                && Contents() == old(Removed(Contents(), i))
                && cache == old(cache) - {link.key}
    {
      if link == null {
        return;
      }
      if link == root {
        return;
      }
      ghost var before := order;
      Unlink(link, before, i);
      cache := cache - {link.key};
      order := Removed(before, i);
      RemovedValid(before, old(cache), i);
      PairsRemoved(before, i);
    }

    /** After the link at `i` is unlinked and its key deleted, the table is valid again. */
    lemma RemovedValid(before: seq<Cell<K, V>>, oldCache: map<K, Cell<K, V>>, i: int)
      requires this in Repr && root in Repr && root !in before
      requires forall k :: 0 <= k < |before| ==> before[k] in Repr
      requires Distinct(before) && Indexed(oldCache, before) && |before| <= Capacity(maxsize)
      requires 0 <= i < |before| && order == Removed(before, i)
      requires cache == oldCache - {before[i].key}
      requires Ring(order)
      ensures Valid()
    {
      IndexedRemove(oldCache, before, i);
      DistinctRemove(before, i);
      assert forall j :: 0 <= j < |order| ==> order[j] == before[if j < i then j else j + 1];
    }

    /**
     * `moveToNewestNotThreadSafe`: links `link`, which is on no list, in as
     * the newest entry in front of the list `rest`. No-op for a missing link
     * or the root. The dict is not touched.
     */
    method MoveToNewestNotThreadSafe(link: Cell?<K, V>, ghost rest: seq<Cell<K, V>>)
      requires Ring(rest) && root !in rest && Distinct(rest)
      requires link == null || link == root || link !in rest
      modifies root, link, if rest == [] then root else rest[0]
      ensures Repr == old(Repr) && cache == old(cache) && order == old(order)
      ensures link == null || link == root ==> Ring(rest)
      ensures link != null && link != root ==> Ring([link] + rest)
    {
      if link == null {
        return;
      }
      if link == root {
        return;
      }
      forall j {:trigger Next(rest, j)} {:trigger Prev(rest, j)} | 0 <= j < |rest|
        ensures old(rest[j].older) == Next(rest, j) && old(rest[j].newer) == Prev(rest, j)
      {
        RingAt(rest, j);
      }
      var usedtobenewest := root.older;
      root.older := link;
      usedtobenewest.newer := link;
      link.older := usedtobenewest;
      link.newer := root;
      FrontLinked(link, rest);
    }

    /** `link` in front of the ring `rest`, once its pointers and its neighbours' are set. */
    lemma FrontLinked(link: Cell<K, V>, rest: seq<Cell<K, V>>)
      requires root !in rest && link != root && link !in rest
      requires root.older == link && link.newer == root
      requires link.older == (if rest == [] then root else rest[0])
      requires root.newer == (if rest == [] then link else rest[|rest| - 1])
      requires rest != [] ==> rest[0].newer == link
      requires forall j {:trigger Next(rest, j)} :: 0 <= j < |rest| ==> rest[j].older == Next(rest, j)
      requires forall j {:trigger Prev(rest, j)} :: 1 <= j < |rest| ==> rest[j].newer == Prev(rest, j)
      ensures Ring([link] + rest)
    {
      var os := [link] + rest;
      forall j | 0 <= j < |os|
        ensures LinkedAt(os, j)
      {
        if j > 0 {
          assert os[j] == rest[j - 1] && Next(os, j) == Next(rest, j - 1);
          if j > 1 {
            assert Prev(os, j) == Prev(rest, j - 1);
          }
        }
      }
    }

    /**
     * `get`: a miss returns None and changes nothing; a hit returns the
     * value and makes its entry the newest, the rest keeping their order.
     */
    method Get(key: K) returns (r: Option<V>)
      requires Valid()
      modifies Repr
      ensures Valid() && Repr == old(Repr)
      ensures r == Lookup(old(Contents()), key)
      ensures Contents() == Touch(old(Contents()), key)
      ensures cache == old(cache)
    {
      if key !in cache {
        ContentsAgree(key);
        return None;
      }
      var link := cache[key];
      ghost var i :| 0 <= i < |order| && order[i] == link;
      ghost var before := order;
      Refresh(link, i);
      r := Some(link.value);
      HitContents(cache, before, i);
    }

    /** The hit path of `get`: the link at `i` is unlinked and relinked as the newest. */
    method Refresh(link: Cell<K, V>, ghost i: int)
      requires Valid() && 0 <= i < |order| && order[i] == link
      modifies Repr
      ensures Valid() && Repr == old(Repr) && cache == old(cache)
      ensures order == old(Promote(order, i))
    {
      ghost var before := order;
      ghost var rest := Removed(before, i);
      DistinctRemove(before, i);
      Unlink(link, before, i);
      MoveToNewestNotThreadSafe(link, rest);
      order := [link] + rest;
      TouchedValid(before, i);
    }

    /** After a hit the link at `i` heads the list; the dict is unchanged and the table valid. */
    lemma TouchedValid(before: seq<Cell<K, V>>, i: int)
      requires this in Repr && root in Repr && root !in before
      requires forall k :: 0 <= k < |before| ==> before[k] in Repr
      requires Distinct(before) && Indexed(cache, before) && |before| <= Capacity(maxsize)
      requires 0 <= i < |before| && order == [before[i]] + Removed(before, i)
      requires Ring(order)
      ensures Valid() && order == Promote(before, i)
    {
      PromoteRemoved(before, i);
      IndexedPromote(cache, before, i);
      DistinctPromote(before, i);
      forall j | 0 <= j < |order|
        ensures order[j] in Repr && order[j] != root
      {
        assert order[j] == before[Source(i, j)];
      }
    }

    /** In terms of the entries, a hit on the link at `i` is `Touch` of its key. */
    static lemma HitContents(cache: map<K, Cell<K, V>>, before: seq<Cell<K, V>>, i: int)
      requires Indexed(cache, before) && Distinct(before) && 0 <= i < |before|
      ensures Lookup(Pairs(before), before[i].key) == Some(before[i].value)
      ensures Touch(Pairs(before), before[i].key) == Pairs(Promote(before, i))
    {
      UniquePairs(cache, before);
      LookupAt(Pairs(before), i);
      TouchAt(Pairs(before), i);
      PairsPromote(before, i);
    }

    /**
     * `put` of a key that is not stored: when the table holds `maxsize` or
     * more entries the oldest is removed first, then the new entry is linked
     * in as the newest.
     */
    method Put(key: K, value: V)
      requires Valid() && key !in cache
      modifies Repr
      ensures Valid() && fresh(Repr - old(Repr))
      ensures Contents() == Insert(old(Contents()), key, value, maxsize)
    {
      if |cache| >= maxsize {
        var oldest := root.newer;
        EvictOldest(oldest);
      }
      LinkNewest(key, value);
    }

    /** The rest of `put` once there is room: a new link in front of the former newest, stored under `key`. */
    method LinkNewest(key: K, value: V)
      requires Valid() && key !in cache && |order| < Capacity(maxsize)
      modifies Repr
      ensures Valid() && fresh(Repr - old(Repr))
      ensures Contents() == [(key, value)] + old(Contents())
    {
      ghost var before := order;
      ghost var oldCache := cache;
      var usedtobenewest := root.older;
      var newlink := new Cell(root, usedtobenewest, key, value);
      LinkInFront(newlink, before);
      cache := cache[key := newlink];
      order := [newlink] + before;
      Repr := Repr + {newlink};
      assert Repr - old(Repr) <= {newlink};
      InsertedValid(before, oldCache, newlink);
    }

    /** The eviction step of `put`: `removeNotThreadSafe` of the link `root.newer`. */
    method EvictOldest(oldest: Cell<K, V>)
      requires Valid() && oldest == root.newer && |cache| >= maxsize
      modifies Repr
      ensures Valid() && Repr == old(Repr)
      ensures Contents() == Evict(old(Contents()), maxsize)
      ensures |order| < Capacity(maxsize) && cache == old(cache) - {oldest.key}
    {
      ghost var n := |order|;
      if n > 0 {
        RingAt(order, n - 1);
        EvictRemovesLast(Contents(), maxsize);
      }
      RemoveNotThreadSafe(oldest, n - 1);
    }

    /**
     * The two assignments `put` makes once the new link points at the root
     * and at the former newest: both now point back at it.
     */
    method LinkInFront(link: Cell<K, V>, ghost rest: seq<Cell<K, V>>)
      requires Ring(rest) && root !in rest && Distinct(rest)
      requires link != root && link !in rest
      requires link.newer == root && link.older == (if rest == [] then root else rest[0])
      modifies root, if rest == [] then root else rest[0]
      ensures unchanged(link)
      ensures Repr == old(Repr) && cache == old(cache) && order == old(order)
      ensures Ring([link] + rest)
    {
      forall j {:trigger Next(rest, j)} {:trigger Prev(rest, j)} | 0 <= j < |rest|
        ensures old(rest[j].older) == Next(rest, j) && old(rest[j].newer) == Prev(rest, j)
      {
        RingAt(rest, j);
      }
      var usedtobenewest := root.older;
      usedtobenewest.newer := link;
      root.older := link;
      FrontLinked(link, rest);
    }

    /** After a fresh link is put in front and stored under its key, the table is valid again. */
    lemma InsertedValid(before: seq<Cell<K, V>>, oldCache: map<K, Cell<K, V>>, link: Cell<K, V>)
      requires this in Repr && root in Repr && link in Repr && root !in before && link != root
      requires forall k :: 0 <= k < |before| ==> before[k] in Repr
      requires Distinct(before) && Indexed(oldCache, before) && |before| < Capacity(maxsize)
      requires link.key !in oldCache && link !in before
      requires order == [link] + before && cache == oldCache[link.key := link]
      requires Ring(order)
      ensures Valid() && Contents() == [(link.key, link.value)] + Pairs(before)
    {
      PairsCons(link, before);
      IndexedCons(oldCache, before, link);
      assert forall j :: 0 < j < |order| ==> order[j] == before[j - 1];
    }

    /** `clear`: an empty dict and a root linked to itself. */
    method Clear()
      requires Valid()
      modifies this, root
      ensures Valid() && Repr == old(Repr)
      ensures Contents() == [] && cache == map[]
    {
      cache := map[];
      root.newer := root;
      root.older := root;
      order := [];
    }

    /**
     * `dump`: the entry count, then the keys met walking `older` from the
     * root until it comes back round, newest to oldest. The printed lines are
     * returned instead.
     */
    method Dump() returns (count: int, items: seq<K>)
      requires Valid()
      ensures count == |items|
      ensures items == Keys(Contents())
    {
      count := |cache|;
      var ptr := root.older;
      var i := 0;
      items := [];
      assert forall j :: 0 <= j < |order| ==> order[j] != root;
      while ptr != root
        invariant 0 <= i <= |order|
        invariant ptr == (if i < |order| then order[i] else root)
        invariant |items| == i && forall j :: 0 <= j < i ==> items[j] == order[j].key
        decreases |order| - i
      {
        RingAt(order, i);
        items := items + [ptr.key];
        ptr := ptr.older;
        i := i + 1;
      }
      assert i == |order|;
      assert forall j :: 0 <= j < i ==> Keys(Contents())[j] == order[j].key;
    }
  }
}
