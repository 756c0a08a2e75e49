# Read-through LRU cache and strategy registry, in Dafny

This project models a small Java caching library. It has two parts.

- **`LRU`** (module `LruCache`, file `lru.dfy`) is a read-through cache.
  It is built on an access-ordered `LinkedHashMap<String, E>`.
  - `get(key)` returns the cached value on a hit and moves the key to the most-recent end.
  - On a miss it calls the caller's `lookup` function and `put`s the result.
  - The `removeEldestEntry` hook may then drop the eldest entry.
  - The constructor computes a load factor `cacheSize / roundPow2(cacheSize)`.
- **`Cacher` / `CacheFactory`** (module `Cacher`, file `cacher.dfy`) is a registry.
  - It maps a strategy's class to a maker `(capacity, lookup) -> instance`.
  - `register` overwrites, so the last write wins.
  - `make` applies the registered maker, or returns `null` when there is none.
  - A static initializer registers `LRU::new` under `LRU.class`.
  - The interface's static `register` and `New` only forward to the factory.

The cache state is the pair `order` (keys, eldest first) and `vals` (key to value).
The pure function `Access` says what one `get` does to that pair.
The class method `LRU.Get` makes the same change in place, and its postcondition ties it to `Access`.
The properties of a `get` are lemmas about `Access`.

The model follows the code as written, including its boundary behaviour.
The hook answers `size() >= cacheSize`, and it is asked after the new entry is counted.
So a cache built with capacity `N` holds at most `N - 1` entries.
With capacity 1 the cache passes every lookup through and keeps nothing.
`make` returns `null` for an unknown strategy, and the constructor divides by zero for capacity 0.

## Model

| member | source | states |
|---|---|---|
| `LruCache.MoveToEnd` | LRU.java:31 | Reading a cached key in the access-ordered map keeps the same keys and length, and puts that key last (most recent). |
| `LruCache.MoveToEndNoDup` | LRU.java:31 | Moving a key to the most-recent end keeps every key unique in the order. |
| `LruCache.MoveToEndKeepsOrder` | LRU.java:31 | Moving the accessed key changes no other pair's order: `x` precedes `y` afterwards iff it did before. |
| `LruCache.RemoveEldest` | LRU.java:42-44 | The `removeEldestEntry` hook, asked with the size that already counts the new entry. When the map held fewer than `cacheSize` entries before the insertion, it answers true exactly when the map is now at `cacheSize`. Below `cacheSize` it never evicts. |
| `LruCache.Put` | LRU.java:33-44 | `put` of a new key followed by the hook. The new order is the old one with the key appended, minus at most its head. Every remaining key is an old key or the new one, and keeps the value it had or was given. |
| `LruCache.PutKeepsInv` | LRU.java:33 | Putting a key that is not cached keeps the invariant: unique keys, order and map agree, fewer than `cacheSize` entries. |
| `LruCache.PutEvictsWhenFull` | LRU.java:42-44 | The hook evicts exactly when the map already held `cacheSize - 1` entries. The head goes, and with an empty map that head is the new entry itself, so the map stays empty. Otherwise the entry is appended. |
| `LruCache.PutEvictsOnlyHead` | LRU.java:42-44 | A put removes at most one old key, the head of the order, and only when the map was full. It adds only the new key and leaves every other value unchanged. |
| `LruCache.Access` | LRU.java:30-35 | One `get` keeps the invariant, so the size stays below `cacheSize`. It returns the cached value on a hit and exactly `lookup(key)` on a miss. |
| `LruCache.HitRefreshesRecency` | LRU.java:31-34 | Hit: returns the stored value and leaves the entries and values unchanged. The key becomes most recent, and the other keys keep their relative order. |
| `LruCache.MissLoadsThrough` | LRU.java:32-34 | Miss: the result is `lookup(key)`. On success with `cacheSize >= 2` the key is cached with that value at the most-recent end. With `cacheSize == 1` the cache is empty afterwards. |
| `LruCache.FailureChangesNothing` | LRU.java:31-33 | A failing lookup on a miss returns its error and leaves the order and the entries exactly as they were. |
| `LruCache.EvictsOnlyEldest` | LRU.java:42-44 | A `get` removes at most one old entry. It does so only on a successful miss into a full map, and the entry is the least recently used. The only key that can appear is the one asked for, and other values are unchanged. |
| `LruCache.RepeatIsHit` | LRU.java:30-35 | After a successful `get(key)` with `cacheSize >= 2`, a second `get(key)` is a hit and returns the same value, without calling `lookup`. |
| `LruCache.AccessAgreesWithLookup` | LRU.java:30-35 | If every cached value is `lookup`'s answer for its key (true of the empty cache), a `get` returns exactly `lookup(key)`, hit or miss, and keeps that property. So any sequence of `get`s returns what `lookup` gives, even across other keys and evictions. |
| `LruCache.SizeTwoHoldsOneEntry` | LRU.java:43 | With `cacheSize == 2`, `get("a"); get("b")` leaves only `"b"` cached. |
| `LruCache.RecencyRefresh` | LRU.java:30-44 | With `cacheSize == 3`, `get(a), get(b), get(a), get(c)` evicts `b` and keeps `a` and `c`, because the second `get(a)` refreshed `a`. |
| `LruCache.FloorPow2` | LRU.java:49-56 | roundPow2's value: inputs up to 1 come back unchanged. For `n >= 1` the result is a power of two `p` with `p <= n < 2p`. |
| `LruCache.RoundPow2` | LRU.java:49-56 | The shift loop computes `FloorPow2(n)`, so it returns `n` for `n <= 1` and the largest power of two not above `n` otherwise. |
| `LruCache.LoadFactorIsOne` | LRU.java:25 | `cacheSize / roundPow2(cacheSize)` is 1 for every `cacheSize >= 1`. At 0 the divisor is 0. |
| `LruCache.New` | LRU.java:24-28 | `LRU::new` as a maker. It succeeds exactly when `cacheSize >= 1`, with an empty instance holding the given capacity and lookup. |
| `LruCache.LRU.constructor` | LRU.java:24-28 | A new cache is valid and empty, with the given capacity and lookup, and its state is what `New` builds. The load factor is 1. |
| `LruCache.LRU.Get` | LRU.java:30-35 | The in-place `get` changes `order` and `vals` exactly as `Access` says. It returns the cached value or `lookup(key)`, and calls `lookup` only on a miss. |
| `LruCache.LRU.Size` | Cacher.java:45 | The number of entries equals the length of the recency order and is below the capacity. |
| `LruCache.LRU.Capacity` | LRU.java:37-39 | Returns the constructor's `cacheSize`, a constant field. It is at least 1 and greater than `size()`. |
| `Cacher.InitialRegistry` | Cacher.java:67-69 | After static initialisation, exactly one identifier is registered: `LRU.class`. |
| `Cacher.CacheFactory.constructor` | Cacher.java:66-69 | The static initializer leaves the registry holding `LRU::new` under `LRU.class` and nothing else. |
| `Cacher.CacheFactory.Register` | Cacher.java:61-64 | Last write wins. Afterwards `make(c, n, f)` applies the new maker, and `make` of every other identifier is unchanged. |
| `Cacher.CacheFactory.Make` | Cacher.java:71-74 | Returns `None` (Java's `null`) exactly when `c` is unregistered. Otherwise it returns the registered maker applied to `(n, f)`. It only reads the registry. |
| `Cacher.InitialMakesLRU` | Cacher.java:67-74 | After initialisation `make(LRU.class, n, f)` gives an empty LRU with capacity `n` and lookup `f` for `n >= 1`, and the constructor's exception otherwise. Every other identifier gives `None`. |
| `Cacher.NewLRU` | Cacher.java:30-32 | `New(LRU.class, n, f)`, while `LRU.class` maps to `LRU::new`, gives a fresh, valid, empty LRU object with capacity `n`. Its state is exactly what `make` builds. |

## Left out

- `Cacher.CacheFactory.Make`: a null maker, or a maker that returns `null`, is not modelled. Java accepts `register(c, null)` (Cacher.java:61-64), and then `make` returns `null` for the registered class `c`, because it tests `maker != null` (Cacher.java:72-73). A maker that returns `null` also makes `make` return `null`. In the model a maker is always a function yielding a `Result`, so `None` means exactly "unregistered".
- `Cacher.NewLRU`: requires `n >= 1`, which excludes the constructor's exceptions. Those are modelled by `Cacher.InitialMakesLRU`, where `make` then gives `Some(Fail)`.
- A `null` key, which the `LinkedHashMap` accepts (LRU.java:31), is not modelled: keys are strings.
- Hash-table internals are not modelled: buckets, resizing, and the float load factor in the comment at LRU.java:9-16. Only the integer `cacheSize / roundPow2(cacheSize)` is kept, as the constant `loadFactor`.
- Other public `LinkedHashMap` methods that `LRU` inherits are not modelled (`put`, `remove`, `clear`, iteration). They are outside the `Cacher` contract and bypass `get`.
- A `lookup` that returns `null` is not modelled. A lookup returns a value or an error (`Result`), so a hit is exactly "key is in the map".
- Exceptions are `Fail` results. These are exceptions thrown by `lookup` and by a maker, such as the constructor's division by zero.
- Reflection, generics and the unchecked cast are not modelled. A strategy's `Class` object is the datatype `StrategyId`.
- One registry holds makers for one value type `E`. The Java registry is a single static map shared by every `E`.
- Static state is one `CacheFactory` object, and its constructor plays the static initializer. Concurrency and class-initialisation order are not modelled.
- Makers yield the value of an instance (`Instance`), not an object. So the registry can hold only strategies whose instances look like an LRU. Object identity and freshness are shown only for `LRU.class` (`Cacher.NewLRU`).
- The `Cacher` interface is not modelled as a separate type. Its `get`/`size`/`capacity` contract (Cacher.java:39-50) is stated through its one implementation, `LRU`. `Cacher.register` and `Cacher.New` (Cacher.java:17-20, 30-32) forward to the factory and are modelled by it.
- `LruCache.LRU.constructor`: requires `cacheSize >= 1`. Java throws at 0 (division by zero) and for negative values (the `LinkedHashMap` constructor). These exceptions are modelled only by the maker `LruCache.New`, which returns `Fail`.
- Java's 32-bit `int` is not modelled: capacities are unbounded integers. For a positive input, roundPow2's result never exceeds the input, so its left shift cannot overflow.
- The caller's `lookup` is a parameter, a total function to `Result`. Its own behaviour, cost and side effects are not modelled. The ghost field `calls` records which keys were passed to it.
