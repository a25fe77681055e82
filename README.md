# LRU cache model

A Dafny model of `LRUCache<K, V>` from `src/utils/lruCache.ts`. This is the
fixed-capacity cache with least-recently-used eviction that the search box
uses to remember the results of earlier queries.

The original keeps its entries in one JavaScript `Map`. A `Map` iterates in
insertion order, and that order stands for recency:

- the first key is the least recently used;
- `get` of a present key deletes it and re-inserts it, so it moves to the end;
- `set` of a present key does the same, with the new value;
- `set` of a new key first deletes the first key if the map is full, then appends.

The model has two modules.

- `OrderedMaps` (`ordered_map.dfy`) is a value model of the insertion-ordered
  map. It holds the keys in order plus a `map` from keys to values, with the
  invariant `WellFormed`: no key repeats, and exactly the ordered keys have a
  value. The `Map` operations the cache calls are modelled as follows:
  - `has`, `delete` and `set` as `Has`, `Delete` and `Set`;
  - `keys().next().value` as `FirstKey`;
  - `new Map()` and the map that `clear()` leaves as `Empty`;
  - `get` inline, as the lookup `values[k]`;
  - `size` inline, as `|order|`;
  - `keys()` inline, as `order` (a `seq`, so a copy).
- `LruCache` (`lru_cache.dfy`) has three layers:
  1. Specification functions, each giving the effect of one cache operation
     on an ordered map:
     - `Lookup`: what `get` returns;
     - `Touch`: the map after `get`;
     - `Put`: the map after `set`.
  2. Lemmas stating what those effects mean, operation by operation and over
     whole runs of insertions.
  3. The class `LRUCache`. Its `capacity` and `cache` fields and its methods
     mirror the original. Each method changes `cache` in place through the
     same sequence of map primitives the original calls. Its `ensures`
     proves that the new map is the one the specification function gives.

The model follows these facts about the original:

- Keys are compared by raw equality. The cache does not fold case itself:
  its one caller lower-cases the search term before `get` and `set`
  (`src/components/SearchInput.tsx:124` and `:142`). `KeysAreCaseSensitive`
  shows that `"react"` and `"React"` are two entries.
- The constructor accepts any capacity, as the original does (lines 15-18).
  With a capacity below one, a full-cache `set` finds no first key to evict
  in an empty map and inserts anyway, so the cache holds one entry.
  - `ZeroCapacityOverflows` states this case.
  - The class invariant therefore bounds the size by `MaxSize(capacity)`:
    the capacity when it is at least one, and one otherwise.
  - The results about whole runs of insertions assume a capacity of at least one.
- `keys()` copies the keys into a fresh array (`Array.from`). The model
  returns a `seq`, which is a value, so a later `clear` cannot change a
  snapshot already taken (`KeysIsSnapshot`).

## Model

| member | source | states |
|---|---|---|
| OrderedMaps.Empty | src/utils/lruCache.ts:17 | `new Map()` (and the map `clear()` leaves, line 74) is well formed, has no keys in its order and no value for any key |
| OrderedMaps.Has | src/utils/lruCache.ts:27 | `has(key)` is true exactly when the key is in the insertion order of a well-formed map |
| OrderedMaps.Delete | src/utils/lruCache.ts:30 | `delete` removes the key from the values and cuts its slot out of the order, leaving the other keys in their order; deleting an absent key changes nothing; the result stays well formed |
| OrderedMaps.Set | src/utils/lruCache.ts:59 | `set` stores the value; a new key is appended to the end of the order, and a present key keeps its position |
| OrderedMaps.FirstKey | src/utils/lruCache.ts:53 | `keys().next().value` is the key at position 0, and is absent exactly when the map is empty |
| OrderedMaps.RemoveAtIsWithout | src/utils/lruCache.ts:30 | in a sequence without repeats, cutting out the slot of `k` is the same as filtering `k` out, so the other keys keep their relative order |
| LruCache.Lookup | src/utils/lruCache.ts:26-38 | `get` returns a value exactly when the key is present, and then the stored value |
| LruCache.Touch | src/utils/lruCache.ts:27-35 | after `get`, the map is still well formed, has the same size and holds the same values |
| LruCache.Put | src/utils/lruCache.ts:47-60 | after `set(k, v)`, the map is well formed, `k` maps to `v` and `k` is the most recently used key |
| LruCache.GetHit | src/utils/lruCache.ts:27-35 | a hit returns the stored value; the order becomes the other keys in their old relative order followed by `k`; no value changes |
| LruCache.GetMiss | src/utils/lruCache.ts:27-37 | a miss returns nothing and leaves the map unchanged |
| LruCache.SetExisting | src/utils/lruCache.ts:48-50 | overwriting a present key gives it the new value and moves it to the end; the other keys stay in their relative order, no key is lost and the size is unchanged |
| LruCache.SetEvictsOldest | src/utils/lruCache.ts:51-59 | a new key in a full cache evicts exactly the first key and is appended; the size stays the same |
| LruCache.SetAppends | src/utils/lruCache.ts:51-59 | a new key in a cache with room is appended with its value; the size grows by one |
| LruCache.SetLeavesOtherKeys | src/utils/lruCache.ts:47-60 | for every key other than the one set, `get` returns what it returned before, except for the evicted key, which now misses |
| LruCache.SetKeepsBound | src/utils/lruCache.ts:51-59 | `set` never takes the size past `MaxSize(capacity)` |
| LruCache.ZeroCapacityOverflows | src/utils/lruCache.ts:51-59 | with capacity 0, `set` on an empty cache leaves one entry, more than the capacity |
| LruCache.SetThenGet | src/utils/lruCache.ts:26-59 | right after `set(k, v)`, `get(k)` returns `v` and leaves the map as it is |
| LruCache.TouchLast | src/utils/lruCache.ts:27-35 | promoting the key that is already the most recently used changes nothing |
| LruCache.KeysAreCaseSensitive | src/utils/lruCache.ts:48-59 | keys that differ only in case are separate entries |
| LruCache.InsertionEvictsOldestFirst | src/utils/lruCache.ts:47-60 | setting n distinct keys into an empty cache of capacity c keeps exactly the last min(c, n) of them, oldest first, each with its own value; every earlier key has been evicted |
| LruCache.DeleteThenSet | src/utils/lruCache.ts:29-33 | `delete(k)` followed by `set(k, v)` on a present key is the promotion `Touch` and `Put` describe |
| LruCache.DeleteFirstThenSet | src/utils/lruCache.ts:53-59 | deleting the first key and then setting a new key is the eviction `Put` describes |
| LruCache.LRUCache.constructor | src/utils/lruCache.ts:15-18 | a new cache stores the given capacity and starts empty |
| LruCache.LRUCache.Get | src/utils/lruCache.ts:26-38 | returns `Lookup` of the old map and leaves the map that `Touch` describes; the invariant and the capacity are kept |
| LruCache.LRUCache.Set | src/utils/lruCache.ts:47-60 | leaves the map that `Put` describes; the invariant (and so the size bound) and the capacity are kept |
| LruCache.LRUCache.Size | src/utils/lruCache.ts:66-68 | returns the number of entries, which is at most the capacity when the capacity is at least one |
| LruCache.LRUCache.Clear | src/utils/lruCache.ts:73-75 | empties the map, so every lookup misses; the capacity stays |
| LruCache.LRUCache.Keys | src/utils/lruCache.ts:81-83 | returns the keys from least to most recently used, without repeats and within the size bound |
| LruCache.ReadTrace | src/utils/lruCache.ts:26-60 | capacity 2: after set a, set b, get a and set c, the cache holds a and c with their values, and b is gone |
| LruCache.OverwriteTrace | src/utils/lruCache.ts:47-60 | capacity 2: after set a, set b, set a (new value) and set c, the cache holds a (with its new value) and c |
| LruCache.PromotionOnRead | src/utils/lruCache.ts:26-83 | through the class: reading a protects it from the next eviction, so b is evicted and `keys()` is [a, c] |
| LruCache.PromotionOnOverwrite | src/utils/lruCache.ts:26-83 | through the class: overwriting a protects it, so b is evicted and a returns its new value |
| LruCache.KeysIsSnapshot | src/utils/lruCache.ts:73-83 | the keys returned before a `clear` are unchanged by it, and the keys afterwards are empty |

## Left out

- The `console.log` call when an entry is evicted (`src/utils/lruCache.ts:55`) is output only, so it is not modelled.
- `capacity` is a JavaScript `number` in the original. The model takes an `int`: a fractional or NaN capacity is not modelled.
- The internals of JavaScript's `Map` and its SameValueZero key comparison are not modelled. Keys are any Dafny type with equality, compared by `==`.
- `keys().next().value` on an empty map yields `undefined`, and `delete(undefined)` is a no-op. The model takes the no-op branch directly (`FirstKey` returns `None`) and does not model `undefined` as a key.
- `get` returns `V | undefined` (`src/utils/lruCache.ts:26`), so in the original a stored `undefined` value looks the same to the caller as a miss. The model's `Option<V>` tells the two apart.
- The search component (`src/components/SearchInput.tsx`: the component, `highlightMatch`, `filterData`) and the page that hosts it are not part of this model. Only their use of lower-cased keys is recorded above.
- A constant-time linked-list design for the cache is not part of this model. The original has none.
- LruCache.InsertionEvictsOldestFirst: stated only for runs of distinct keys into an empty cache of capacity at least one. Runs that repeat keys are covered step by step by `SetExisting`.
