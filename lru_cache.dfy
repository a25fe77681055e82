/**
  A fixed-capacity key/value cache with least-recently-used eviction.

  The entries live in one insertion-ordered map whose order stands for
  recency: the first key is the least recently used, the last key the most
  recently used. `get` of a present key promotes it by deleting and
  re-inserting it; `set` promotes and overwrites a present key, and for a new
  key first evicts the oldest entry when the cache is full, then appends.

  The module has three layers: the effect of each operation as a function on
  an `OrderedMap` (Lookup, Touch, Put), lemmas stating what those effects
  mean, and the class `LRUCache` whose methods update the map in place with
  the same sequence of map primitives and are proved equal to the functions.
 */
module LruCache {
  import opened OrderedMaps

  /** What `get` returns: the stored value, or nothing for an absent key. */
  function Lookup<K(==), V>(m: OrderedMap<K, V>, k: K): (r: Option<V>)
    ensures r.Some? <==> k in m.values
    ensures r.Some? ==> r.value == m.values[k]
  {
    if k in m.values then Some(m.values[k]) else None
  }

  /** `s` with `k` taken out of its place and put at the most-recent end. */
  function MoveToBack<K(==)>(s: seq<K>, k: K): (r: seq<K>)
    requires k in s
    ensures |r| == |s| && r[|r| - 1] == k
  {
    RemoveAt(s, IndexOf(s, k)) + [k]
  }

  /** Appending a new key with its value keeps the map well formed. */
  lemma AppendWellFormed<K, V>(m: OrderedMap<K, V>, k: K, v: V)
    requires WellFormed(m) && k !in m.order
    ensures WellFormed(OrderedMap(m.order + [k], m.values[k := v]))
  {
    var s := m.order + [k];
    forall i, j | 0 <= i < j < |s| ensures s[i] != s[j] {
      if j == |s| - 1 {
        assert s[i] == m.order[i];
      }
    }
  }

  /** Moving a present key to the end, with any value, keeps the map well formed. */
  lemma PromoteWellFormed<K, V>(m: OrderedMap<K, V>, k: K, v: V)
    requires WellFormed(m) && k in m.order
    ensures WellFormed(OrderedMap(MoveToBack(m.order, k), m.values[k := v]))
  {
    var d := Delete(m, k);
    assert d.values[k := v] == m.values[k := v];
    AppendWellFormed(d, k, v);
  }

  /** Dropping the first key and appending a new one keeps the map well formed. */
  lemma EvictWellFormed<K, V>(m: OrderedMap<K, V>, k: K, v: V)
    requires WellFormed(m) && k !in m.order && |m.order| > 0
    ensures WellFormed(OrderedMap(m.order[1..] + [k], (m.values - {m.order[0]})[k := v]))
  {
    var d := Delete(m, m.order[0]);
    assert IndexOf(m.order, m.order[0]) == 0;
    assert d.order == m.order[1..];
    AppendWellFormed(d, k, v);
  }

  /** The map after `get(k)`: a present key becomes the most recently used. */
  function Touch<K(==), V>(m: OrderedMap<K, V>, k: K): (r: OrderedMap<K, V>)
    requires WellFormed(m)
    ensures WellFormed(r) && |r.order| == |m.order| && r.values == m.values
  {
    if k in m.values then
      PromoteWellFormed(m, k, m.values[k]);
      assert m.values[k := m.values[k]] == m.values;
      OrderedMap(MoveToBack(m.order, k), m.values)
    else m
  }

  /**
    The map after `set(k, v)` on a cache of the given capacity: a present key
    is overwritten and becomes the most recently used; a new key is appended,
    after the first key is evicted when the cache holds `capacity` or more
    entries (an empty cache has no first key, and nothing is evicted).
   */
  function Put<K(==), V>(m: OrderedMap<K, V>, capacity: int, k: K, v: V): (r: OrderedMap<K, V>)
    requires WellFormed(m)
    ensures WellFormed(r) && k in r.values && r.values[k] == v
    ensures |r.order| > 0 && r.order[|r.order| - 1] == k
  {
    if k in m.values then
      PromoteWellFormed(m, k, v);
      OrderedMap(MoveToBack(m.order, k), m.values[k := v])
    else if |m.order| >= capacity && |m.order| > 0 then
      EvictWellFormed(m, k, v);
      OrderedMap(m.order[1..] + [k], (m.values - {m.order[0]})[k := v])
    else
      AppendWellFormed(m, k, v);
      OrderedMap(m.order + [k], m.values[k := v])
  }

  // ---------------------------------------------------------------------
  // What `get` does

  /**
    A hit returns the stored value, puts the key at the most-recent end and
    keeps every other key, in its old relative order, and every value.
   */
  lemma GetHit<K, V>(m: OrderedMap<K, V>, k: K)
    requires WellFormed(m) && k in m.order
    ensures Lookup(m, k) == Some(m.values[k])
    ensures var r := Touch(m, k);
      && r.order == Without(m.order, k) + [k]
      && r.values == m.values
  {
    RemoveAtIsWithout(m.order, k);
  }

  /** A miss returns nothing and changes nothing. */
  lemma GetMiss<K, V>(m: OrderedMap<K, V>, k: K)
    requires WellFormed(m) && k !in m.order
    ensures Lookup(m, k) == None && Touch(m, k) == m
  {
  }

  // ---------------------------------------------------------------------
  // What `set` does

  /** Overwriting a present key promotes it with its new value; no key is lost. */
  lemma SetExisting<K, V>(m: OrderedMap<K, V>, capacity: int, k: K, v: V)
    requires WellFormed(m) && k in m.order
    ensures var r := Put(m, capacity, k, v);
      && r.order == Without(m.order, k) + [k]
      && r.values == m.values[k := v]
      && (forall x :: x in m.order ==> x in r.order)
      && |r.order| == |m.order|
  {
    RemoveAtIsWithout(m.order, k);
  }

  /**
    For every other key, `set(k, v)` leaves what `get` would return unchanged,
    except for the key it evicts: the first one, and only when `k` is new and
    the cache is full.
   */
  lemma SetLeavesOtherKeys<K, V>(m: OrderedMap<K, V>, capacity: int, k: K, v: V, x: K)
    requires WellFormed(m) && x != k
    ensures var evicted := k !in m.order && 0 < |m.order| && capacity <= |m.order| && x == m.order[0];
      Lookup(Put(m, capacity, k, v), x) == if evicted then None else Lookup(m, x)
  {
  }

  /**
    A new key in a full cache evicts exactly the first (least recently used)
    key, then is appended: the size stays the same.
   */
  lemma SetEvictsOldest<K, V>(m: OrderedMap<K, V>, capacity: int, k: K, v: V)
    requires WellFormed(m) && k !in m.order && 0 < |m.order| && capacity <= |m.order|
    ensures var r := Put(m, capacity, k, v);
      && r.order == m.order[1..] + [k]
      && r.values == (m.values - {m.order[0]})[k := v]
      && |r.order| == |m.order| && m.order[0] !in r.values
  {
  }

  /** A new key in a cache with room is appended: the size grows by one, nothing is evicted. */
  lemma SetAppends<K, V>(m: OrderedMap<K, V>, capacity: int, k: K, v: V)
    requires WellFormed(m) && k !in m.order && |m.order| < capacity
    ensures var r := Put(m, capacity, k, v);
      && r.order == m.order + [k]
      && r.values == m.values[k := v]
      && |r.order| == |m.order| + 1
  {
  }

  /** `set` never takes the cache past its capacity (past one entry, for a capacity below one). */
  lemma SetKeepsBound<K, V>(m: OrderedMap<K, V>, capacity: int, k: K, v: V)
    requires WellFormed(m) && |m.order| <= MaxSize(capacity)
    ensures |Put(m, capacity, k, v).order| <= MaxSize(capacity)
  {
  }

  /**
    The most entries a cache of the given capacity ever holds: `set` evicts
    only from a non-empty map, so a capacity below one still admits one entry.
   */
  function MaxSize(capacity: int): (n: nat)
    ensures 1 <= n && capacity <= n
    ensures 1 <= capacity ==> n == capacity
  {
    if capacity < 1 then 1 else capacity
  }

  /**
    Nothing checks the capacity: with capacity 0, `set` on an empty cache
    finds no first key to evict and inserts anyway, leaving one entry.
   */
  lemma ZeroCapacityOverflows<K, V>(k: K, v: V)
    ensures |Put(Empty(), 0, k, v).order| == 1
  {
  }

  /** Right after `set(k, v)`, `get(k)` returns `v` and leaves the map as it is. */
  lemma SetThenGet<K, V>(m: OrderedMap<K, V>, capacity: int, k: K, v: V)
    requires WellFormed(m)
    ensures Lookup(Put(m, capacity, k, v), k) == Some(v)
    ensures Touch(Put(m, capacity, k, v), k) == Put(m, capacity, k, v)
  {
    TouchLast(Put(m, capacity, k, v), k);
  }

  /** Promoting the key that is already the most recently used changes nothing. */
  lemma TouchLast<K, V>(r: OrderedMap<K, V>, k: K)
    requires WellFormed(r) && |r.order| > 0 && r.order[|r.order| - 1] == k
    ensures Touch(r, k) == r
  {
    var n := |r.order|;
    assert IndexOf(r.order, k) == n - 1;
    assert MoveToBack(r.order, k) == r.order[..n - 1] + [k] == r.order;
  }

  /** Keys are compared as they are: "react" and "React" are two entries. */
  lemma KeysAreCaseSensitive()
    ensures Put(Put(Empty<string, int>(), 2, "react", 1), 2, "React", 2).order == ["react", "React"]
  {
  }

  // ---------------------------------------------------------------------
  // A run of insertions

  /** The map after `set(ks[j], vs[j])` for every j, first to last. */
  function PutAll<K(==), V>(m: OrderedMap<K, V>, capacity: int, ks: seq<K>, vs: seq<V>): (r: OrderedMap<K, V>)
    requires WellFormed(m) && |ks| == |vs|
    ensures WellFormed(r)
    decreases |ks|
  {
    if ks == [] then m
    else
      var n := |ks|;
      Put(PutAll(m, capacity, ks[..n - 1], vs[..n - 1]), capacity, ks[n - 1], vs[n - 1])
  }

  /**
    `r` holds exactly the pairs (ks[j], vs[j]) for j from `lo` on, oldest
    first; the keys before `lo` are absent.
   */
  ghost predicate KeepsSuffix<K, V>(r: OrderedMap<K, V>, ks: seq<K>, vs: seq<V>, lo: nat)
  {
    && lo <= |ks| == |vs|
    && r.order == ks[lo..]
    && (forall i :: 0 <= i < |r.order| ==> r.order[i] in r.values && r.values[r.order[i]] == vs[lo + i])
    && (forall j :: 0 <= j < lo ==> ks[j] !in r.values)
  }

  /** What `KeepsSuffix` says of all but the last pair, read on the whole run. */
  lemma KeepsPrefix<K, V>(m: OrderedMap<K, V>, ks: seq<K>, vs: seq<V>, lo: nat)
    requires 0 < |ks| == |vs| && ks[|ks| - 1] !in ks[..|ks| - 1]
    requires KeepsSuffix(m, ks[..|ks| - 1], vs[..|vs| - 1], lo)
    ensures m.order == ks[lo..|ks| - 1] && ks[|ks| - 1] !in m.order
    ensures forall i :: 0 <= i < |m.order| ==> m.order[i] in m.values && m.values[m.order[i]] == vs[lo + i]
    ensures forall j :: 0 <= j < lo ==> ks[j] !in m.values
  {
    var n := |ks|;
    forall j | 0 <= j < n - 1 ensures ks[..n - 1][j] == ks[j] && vs[..n - 1][j] == vs[j] {
    }
  }

  /** One more new key when there is room: it is appended and nothing is lost. */
  lemma AppendStep<K, V>(m: OrderedMap<K, V>, capacity: int, ks: seq<K>, vs: seq<V>)
    requires WellFormed(m) && 0 < |ks| == |vs| && |ks| - 1 < capacity
    requires ks[|ks| - 1] !in ks[..|ks| - 1]
    requires KeepsSuffix(m, ks[..|ks| - 1], vs[..|vs| - 1], 0)
    ensures KeepsSuffix(Put(m, capacity, ks[|ks| - 1], vs[|vs| - 1]), ks, vs, 0)
  {
    var n := |ks|;
    KeepsPrefix(m, ks, vs, 0);
    SetAppends(m, capacity, ks[n - 1], vs[n - 1]);
    assert ks[..n - 1] + [ks[n - 1]] == ks;
  }

  /** One more new key into a full cache: the oldest survivor goes, the key is appended. */
  lemma EvictStep<K, V>(m: OrderedMap<K, V>, capacity: int, ks: seq<K>, vs: seq<V>)
    requires WellFormed(m) && 1 <= capacity && |ks| == |vs| && |ks| - 1 >= capacity
    requires ks[|ks| - 1] !in ks[..|ks| - 1] && ks[|ks| - 1 - capacity] !in ks[|ks| - capacity..]
    requires KeepsSuffix(m, ks[..|ks| - 1], vs[..|vs| - 1], |ks| - 1 - capacity)
    ensures KeepsSuffix(Put(m, capacity, ks[|ks| - 1], vs[|vs| - 1]), ks, vs, |ks| - capacity)
  {
    var n, lo := |ks|, |ks| - 1 - capacity;
    var k, v := ks[n - 1], vs[n - 1];
    KeepsPrefix(m, ks, vs, lo);
    assert |m.order| == capacity;
    SetEvictsOldest(m, capacity, k, v);
    EvictedSuffix(m, Put(m, capacity, k, v), ks, vs, lo);
  }

  /** Dropping the pair at `lo` and appending the last pair moves the kept suffix by one. */
  lemma EvictedSuffix<K, V>(m: OrderedMap<K, V>, r: OrderedMap<K, V>, ks: seq<K>, vs: seq<V>, lo: nat)
    requires lo + 1 < |ks| == |vs|
    requires ks[|ks| - 1] !in ks[..|ks| - 1] && ks[lo] !in ks[lo + 1..]
    requires KeepsSuffix(m, ks[..|ks| - 1], vs[..|vs| - 1], lo)
    requires r.order == m.order[1..] + [ks[|ks| - 1]]
    requires r.values == (m.values - {m.order[0]})[ks[|ks| - 1] := vs[|vs| - 1]]
    ensures KeepsSuffix(r, ks, vs, lo + 1)
  {
    var n := |ks|;
    KeepsPrefix(m, ks, vs, lo);
    assert m.order[0] == ks[lo];
    assert r.order == ks[lo + 1..];
    forall i | 0 <= i < |r.order| ensures r.order[i] in r.values && r.values[r.order[i]] == vs[lo + 1 + i] {
      if i < |r.order| - 1 {
        assert r.order[i] == m.order[i + 1] == ks[lo + 1 + i];
        assert ks[lo + 1..][i] == ks[lo + 1 + i];
        assert ks[..n - 1][lo + 1 + i] == ks[lo + 1 + i];
      }
    }
    forall j | 0 <= j < lo + 1 ensures ks[j] !in r.values {
      if j < lo {
        assert ks[..n - 1][j] == ks[j];
      }
    }
  }

  /** In a sequence without repeats, no element occurs again later on. */
  lemma DistinctNotLater<K>(s: seq<K>, i: nat)
    requires Distinct(s) && i < |s|
    ensures s[i] !in s[i + 1..] && s[i] !in s[..i]
  {
    forall j | i < j < |s| ensures s[j] != s[i] {
    }
    forall j | 0 <= j < i ensures s[j] != s[i] {
    }
  }

  /**
    Setting distinct keys k1..kn into an empty cache of capacity c keeps
    exactly the last min(c, n) of them, oldest first, each with its value;
    the earlier ones have been evicted.
   */
  lemma {:induction false} InsertionEvictsOldestFirst<K, V>(capacity: int, ks: seq<K>, vs: seq<V>)
    requires 1 <= capacity && |ks| == |vs| && Distinct(ks)
    ensures KeepsSuffix(PutAll(Empty(), capacity, ks, vs), ks, vs, Survivors(|ks|, capacity))
    decreases |ks|, 1
  {
    if ks != [] {
      InsertionOfLast(capacity, ks, vs);
    }
  }

  /** The inductive step: the run without its last key, then that key. */
  lemma {:induction false} InsertionOfLast<K, V>(capacity: int, ks: seq<K>, vs: seq<V>)
    requires 1 <= capacity && 0 < |ks| == |vs| && Distinct(ks)
    ensures KeepsSuffix(PutAll(Empty(), capacity, ks, vs), ks, vs, Survivors(|ks|, capacity))
    decreases |ks|, 0
  {
    var n := |ks|;
    var m := PutAll(Empty(), capacity, ks[..n - 1], vs[..n - 1]);
    DistinctPrefix(ks, n - 1);
    InsertionEvictsOldestFirst(capacity, ks[..n - 1], vs[..n - 1]);
    InsertionStep(m, capacity, ks, vs);
    assert PutAll(Empty(), capacity, ks, vs) == Put(m, capacity, ks[n - 1], vs[n - 1]);
  }

  /** The index of the oldest key still cached after a run of `n` distinct new keys. */
  function Survivors(n: nat, capacity: int): (lo: nat)
    requires 1 <= capacity
    ensures lo <= n && n - lo <= capacity
  {
    if n <= capacity then 0 else n - capacity
  }

  /** The last key of a run, set into the map the rest of the run left behind. */
  lemma InsertionStep<K, V>(m: OrderedMap<K, V>, capacity: int, ks: seq<K>, vs: seq<V>)
    requires WellFormed(m) && 1 <= capacity && 0 < |ks| == |vs| && Distinct(ks)
    requires KeepsSuffix(m, ks[..|ks| - 1], vs[..|vs| - 1], Survivors(|ks| - 1, capacity))
    ensures KeepsSuffix(Put(m, capacity, ks[|ks| - 1], vs[|vs| - 1]), ks, vs, Survivors(|ks|, capacity))
  {
    var n := |ks|;
    DistinctNotLater(ks, n - 1);
    if n - 1 < capacity {
      AppendStep(m, capacity, ks, vs);
    } else {
      DistinctNotLater(ks, n - 1 - capacity);
      EvictStep(m, capacity, ks, vs);
    }
  }

  /** A prefix of a sequence without repeats has none either. */
  lemma DistinctPrefix<K>(s: seq<K>, n: nat)
    requires Distinct(s) && n <= |s|
    ensures Distinct(s[..n])
  {
    forall i, j | 0 <= i < j < n ensures s[..n][i] != s[..n][j] {
      assert s[..n][i] == s[i] && s[..n][j] == s[j];
    }
  }

  // ---------------------------------------------------------------------
  // The map primitives, in the order the original calls them

  /** `delete(k)` then `set(k, v)` on a present key is the promotion `Put` and `Touch` perform. */
  lemma DeleteThenSet<K, V>(m: OrderedMap<K, V>, k: K, v: V)
    requires WellFormed(m) && k in m.order
    ensures OrderedMaps.Set(Delete(m, k), k, v) == OrderedMap(MoveToBack(m.order, k), m.values[k := v])
  {
    assert (m.values - {k})[k := v] == m.values[k := v];
  }

  /** `delete` of the first key then `set` of a new key is the eviction `Put` performs. */
  lemma DeleteFirstThenSet<K, V>(m: OrderedMap<K, V>, k: K, v: V)
    requires WellFormed(m) && k !in m.order && |m.order| > 0
    ensures OrderedMaps.Set(Delete(m, m.order[0]), k, v) == OrderedMap(m.order[1..] + [k], (m.values - {m.order[0]})[k := v])
  {
    assert IndexOf(m.order, m.order[0]) == 0;
    assert RemoveAt(m.order, 0) == m.order[1..];
  }

  // ---------------------------------------------------------------------
  // The cache object

  class LRUCache<K(==), V> {
    var capacity: int
    var cache: OrderedMap<K, V>

    /**
      The map is well formed and holds at most `capacity` entries, or one
      entry when the capacity is below one.
     */
    ghost predicate Valid()
      reads this
    {
      WellFormed(cache) && |cache.order| <= MaxSize(capacity)
    }

    /** Any capacity is accepted, as in the original. */
    constructor(capacity: int)
      ensures Valid() && this.capacity == capacity && cache == Empty()
    {
      this.capacity := capacity;
      cache := Empty();
    }

    /** Looks a key up; a hit is promoted to most recently used. */
    method Get(key: K) returns (r: Option<V>)
      requires Valid()
      modifies this
      ensures Valid() && capacity == old(capacity)
      ensures r == Lookup(old(cache), key) && cache == Touch(old(cache), key)
    {
      if Has(cache, key) {
        var value := cache.values[key];
        DeleteThenSet(cache, key, value);
        assert cache.values[key := value] == cache.values;
        cache := Delete(cache, key);
        cache := OrderedMaps.Set(cache, key, value);
        return Some(value);
      }
      return None;
    }

    /** Stores a pair as most recently used, evicting the oldest entry of a full cache. */
    method Set(key: K, value: V)
      requires Valid()
      modifies this
      ensures Valid() && capacity == old(capacity)
      ensures cache == Put(old(cache), capacity, key, value)
    {
      SetKeepsBound(cache, capacity, key, value);
      if Has(cache, key) {
        DeleteThenSet(cache, key, value);
        cache := Delete(cache, key);
      } else if |cache.order| >= capacity {
        match FirstKey(cache)
        case Some(oldest) =>
          DeleteFirstThenSet(cache, key, value);
          cache := Delete(cache, oldest);
        case None =>
      }
      cache := OrderedMaps.Set(cache, key, value);
    }

    /** The number of entries, never more than the capacity when that is at least one. */
    method Size() returns (n: int)
      requires Valid()
      ensures n == |cache.order| && 0 <= n <= MaxSize(capacity)
      ensures 1 <= capacity ==> n <= capacity
    {
      n := |cache.order|;
    }

    /** Drops every entry; the capacity stays. */
    method Clear()
      requires Valid()
      modifies this
      ensures Valid() && capacity == old(capacity) && cache == Empty()
      ensures forall k :: Lookup(cache, k) == None
    {
      cache := Empty();
    }

    /** A snapshot of the keys, least to most recently used. */
    method Keys() returns (ks: seq<K>)
      requires Valid()
      ensures ks == cache.order && Distinct(ks) && |ks| <= MaxSize(capacity)
    {
      ks := cache.order;
    }
  }

  // ---------------------------------------------------------------------
  // Callers' view: behaviour a client of the class can rely on

  /** Capacity 2: set a, set b, get a, set c evicts b, not a. */
  lemma ReadTrace<K, V>(a: K, b: K, c: K, x: V, y: V, z: V)
    requires a != b && b != c && a != c
    ensures Put(Touch(Put(Put(Empty(), 2, a, x), 2, b, y), a), 2, c, z) == OrderedMap([a, c], map[a := x, c := z])
  {
    FillTwo(a, b, x, y);
    assert IndexOf([a, b], a) == 0;
    assert Touch(OrderedMap([a, b], map[a := x, b := y]), a) == OrderedMap([b, a], map[a := x, b := y]);
    EvictSecond(a, b, c, x, y, z);
  }

  /** Capacity 2: set a then set b fills the cache in that order. */
  lemma FillTwo<K, V>(a: K, b: K, x: V, y: V)
    requires a != b
    ensures Put(Put(Empty(), 2, a, x), 2, b, y) == OrderedMap([a, b], map[a := x, b := y])
  {
    assert Put(Empty(), 2, a, x) == OrderedMap([a], map[a := x]);
  }

  /** Capacity 2, order [b, a]: set c evicts b. */
  lemma EvictSecond<K, V>(a: K, b: K, c: K, x: V, y: V, z: V)
    requires a != b && b != c && a != c
    ensures Put(OrderedMap([b, a], map[a := x, b := y]), 2, c, z) == OrderedMap([a, c], map[a := x, c := z])
  {
    assert (map[a := x, b := y] - {b})[c := z] == map[a := x, c := z];
  }

  method PromotionOnRead<K(==), V>(a: K, b: K, c: K, x: V, y: V, z: V) returns (ks: seq<K>, hitB: Option<V>)
    requires a != b && b != c && a != c
    ensures ks == [a, c] && hitB == None
  {
    var lru := new LRUCache<K, V>(2);
    lru.Set(a, x);
    lru.Set(b, y);
    var _ := lru.Get(a);
    lru.Set(c, z);
    ReadTrace(a, b, c, x, y, z);
    ks := lru.Keys();
    hitB := lru.Get(b);
  }

  /** Capacity 2: set a, set b, set a again, set c evicts b, and a holds its new value. */
  lemma OverwriteTrace<K, V>(a: K, b: K, c: K, x: V, y: V, x2: V, z: V)
    requires a != b && b != c && a != c
    ensures Put(Put(Put(Put(Empty(), 2, a, x), 2, b, y), 2, a, x2), 2, c, z) == OrderedMap([a, c], map[a := x2, c := z])
  {
    FillTwo(a, b, x, y);
    assert IndexOf([a, b], a) == 0;
    assert Put(OrderedMap([a, b], map[a := x, b := y]), 2, a, x2) == OrderedMap([b, a], map[a := x2, b := y]);
    EvictSecond(a, b, c, x2, y, z);
  }

  method PromotionOnOverwrite<K(==), V>(a: K, b: K, c: K, x: V, y: V, x2: V, z: V)
    returns (ks: seq<K>, hitA: Option<V>, hitB: Option<V>)
    requires a != b && b != c && a != c
    ensures ks == [a, c] && hitA == Some(x2) && hitB == None
  {
    var lru := new LRUCache<K, V>(2);
    lru.Set(a, x);
    lru.Set(b, y);
    lru.Set(a, x2);
    lru.Set(c, z);
    OverwriteTrace(a, b, c, x, y, x2, z);
    ks := lru.Keys();
    hitB := lru.Get(b);
    hitA := lru.Get(a);
  }

  /** `keys()` is a copy: a later `clear` does not change a snapshot already taken. */
  method KeysIsSnapshot<K(==), V>(k: K, v: V) returns (before: seq<K>, after: seq<K>)
    ensures before == [k] && after == []
  {
    var lru := new LRUCache<K, V>(1);
    lru.Set(k, v);
    before := lru.Keys();
    lru.Clear();
    after := lru.Keys();
  }
}
