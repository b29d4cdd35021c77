# lrucache17 in Dafny

A model of the two classes of the header-only C++17 library lrucache17:

- `lru17::Cache`, a least-recently-used cache with a soft limit `maxSize`,
  a hard limit `maxSize + elasticity` and batch pruning;
- `lru17::TimedCache`, a time-to-live wrapper that stores `(value, time)`
  pairs in an inner `Cache` and decides expiry lazily, on read.

The engine keeps a recency list `keys_` (front = most recently used) and an
index `cache_` from key to list node. The model keeps the same two
structures over a node arena:

- `State.nodes`, a map from node ids to `(key, value)` nodes;
- `State.order`, the list as a sequence of node ids;
- `State.index`, a map from keys to node ids.

Files:

- `lru_model.dfy` (module `LruModel`): the state, its invariants and every
  engine operation as a function on states, with lemmas about them.
- `lru_cache.dfy` (module `Lru17`): `Cache` as a class whose methods update
  the arena, the list and the index in place. Prune's `while` loop is a
  method with loop invariants. Each method is proved against its `LruModel`
  function, and each public method keeps the capacity policy.
- `timed_cache.dfy` (module `TimedLru17`): the expiry test, the wrapper's
  reads as functions, lemmas about expiry, and `TimedCache` as a class
  owning an inner `Cache`.
- `scenarios.dfy` (module `Scenarios`): two concrete runs of the engine and
  the sample program's expiry check.

`remove` is modelled as written: it erases the key from the index and leaves
the node in the list (the list erase at LRUCache17.hpp:137 is commented out).
Two invariants result:

- `Valid` holds in every state: each index entry names a listed node that
  carries the entry's key, so `size()` never exceeds the list length.
- `Bijective` (no orphan nodes) is guaranteed from construction or the
  last `clear` until the next successful `remove`. Properties that need it
  take it as a precondition.

`Scenarios.OrphanEvictsLiveKey` shows the consequence. A key is removed and
inserted again. Prune later pops the old orphan node and, because it erases
by key, drops the index entry of the key's new node. The newest entry is
lost while an older one is kept.

Expiry is the strict `now - time > ttl` (TimedLRUCache17.hpp:39, 58), so an
entry exactly `ttl` old is still returned. `TimedCache::contains` calls a
member `timeToLive(k)` that does not exist (see Left out).

`getMaxAllowedSize()` and prune's `maxAllowed` are `size_t` sums, modelled
modulo 2^64. A wrapped sum puts the hard limit below `maxSize`, so any insert
that takes the index above `maxSize` prunes it straight back to `maxSize`:
the elasticity is lost.

Between operations a bounded cache keeps a capacity policy (`WithinCapacity`).
Either the index is below `maxSize + elasticity`, since reaching that limit
triggers a prune, or it holds at most `maxSize` keys.

## Model

| member | source | states |
|---|---|---|
| LruModel.Initial | LRUCache17.hpp:74-75 | a new cache is empty and has no orphans |
| LruModel.MaxAllowed | LRUCache17.hpp:148 | the hard limit equals `maxSize + elasticity` when that fits in `size_t`; when it wraps it is the sum minus 2^64, below `maxSize` |
| LruModel.Promote | LRUCache17.hpp:95 | the splice puts the node at the front, keeps the list duplicate-free with the same nodes and length, and keeps the other nodes' relative order |
| LruModel.Lookup | LRUCache17.hpp:105-110 | a key is found exactly when it is indexed, and the value found is that of the node the index names, which carries the key and is listed |
| LruModel.Contains | LRUCache17.hpp:141-144 | `contains` is true exactly when a lookup would find the key |
| LruModel.Walk | LRUCache17.hpp:149-153 | the walk lists the node of every list position, in list order |
| LruModel.EvictBack | LRUCache17.hpp:163-164 | one round of prune's loop shortens the list by one, deletes the back node from the arena and unindexes that node's key |
| LruModel.EvictWhile | LRUCache17.hpp:161-167 | prune's loop keeps the index/list invariant |
| LruModel.Prune | LRUCache17.hpp:156-168 | prune keeps the index/list invariant |
| LruModel.Grow | LRUCache17.hpp:99-100 | adding a fresh front node for a new key keeps the invariant and does not create an orphan |
| LruModel.Insert | LRUCache17.hpp:90-102 | insert keeps the index/list invariant |
| LruModel.TryGet | LRUCache17.hpp:103-111 | tryGet returns exactly what a lookup finds and keeps the invariant |
| LruModel.Get | LRUCache17.hpp:116-124 | get keeps the invariant |
| LruModel.Remove | LRUCache17.hpp:131-140 | remove keeps the invariant although it leaves the node listed |
| LruModel.Clear | LRUCache17.hpp:85-89 | clear leaves an empty list and index, with no orphans |
| LruModel.EvictBackFacts | LRUCache17.hpp:163-164 | popping the back node keeps the invariant, drops the last list element and removes at most one index entry |
| LruModel.EvictBackShrinks | LRUCache17.hpp:163-164 | popping the back node changes no remaining node and no remaining index entry |
| LruModel.IndexBoundedByOrder | LRUCache17.hpp:162 | the index is never larger than the list, which bounds prune's loop |
| LruModel.EvictBackBijective | LRUCache17.hpp:163-164 | without orphans, popping the back node removes exactly one index entry and leaves no orphan |
| LruModel.SizeBounds | LRUCache17.hpp:77-80 | `size()` is at most the list length, and equal to it without orphans |
| LruModel.BijectiveSizes | LRUCache17.hpp:77-80 | without orphans, index and list have the same size |
| LruModel.EvictWhileStep | LRUCache17.hpp:162-165 | while the index is above `maxSize` the list is non-empty, and one round pops the back node and adds one to the count |
| LruModel.EvictWhileSize | LRUCache17.hpp:162-166 | the loop ends with exactly `maxSize` keys when it starts above that, and otherwise changes nothing |
| LruModel.EvictWhileSuffix | LRUCache17.hpp:162-167 | the loop pops only from the back: the remaining list is a prefix of the old one, and the count is the number of nodes dropped |
| LruModel.EvictWhileShrinks | LRUCache17.hpp:162-166 | every node and index entry that survives the loop is unchanged |
| LruModel.EvictWhileBijective | LRUCache17.hpp:162-166 | without orphans, the loop leaves no orphan |
| LruModel.PruneEffect | LRUCache17.hpp:156-168 | prune changes nothing and returns 0 when unbounded or below the hard limit; otherwise it pops until at most `maxSize` keys remain (exactly `maxSize` when the limit does not wrap). Either way it drops only a list suffix, returns that suffix's length, changes no surviving index entry, and an orphan-free cache stays orphan-free |
| LruModel.InsertExisting | LRUCache17.hpp:92-96 | re-inserting an indexed key stores the new value in its node and moves the node to the front; the index, the list length and the other nodes' order and contents are unchanged |
| LruModel.InsertNewAtFront | LRUCache17.hpp:99-101 | a new key gets a fresh front node with its value; if prune keeps the key, it still names that front node |
| LruModel.InsertNewSurvives | LRUCache17.hpp:99-101 | a new key reads back with its value when the cache is unbounded, or has no orphans and `maxSize >= 1` |
| LruModel.InsertBijective | LRUCache17.hpp:90-102 | insert keeps an orphan-free cache orphan-free |
| LruModel.InsertCapacity | LRUCache17.hpp:156-168 | after inserting a new key into a bounded cache, the size is below the hard limit or at most `maxSize`; when `maxSize + elasticity` does not wrap, below `maxSize + elasticity` or exactly `maxSize` |
| LruModel.GrowLookups | LRUCache17.hpp:99-100 | adding the front node makes the new key read back its value, adds one index entry and changes no other key's lookup |
| LruModel.GrowLookupNew | LRUCache17.hpp:99-100 | adding the front node makes the new key read back its value and adds one index entry |
| LruModel.GrowLookupOther | LRUCache17.hpp:99-100 | adding the front node changes the lookup of no other key |
| LruModel.EvictBackLookups | LRUCache17.hpp:163-164 | without orphans, popping the back node makes its key missing and changes no other key's lookup |
| LruModel.InsertAtLimitPopsBack | LRUCache17.hpp:99-101 | inserting a new key into a full cache without orphans whose hard limit is `maxSize` or `maxSize + 1` pops exactly the least recently used node |
| LruModel.InsertEvictsLeastRecent | LRUCache17.hpp:156-168 | in that case the least recently used key becomes missing, other keys keep their values, the size stays `maxSize`, and no orphan appears |
| LruModel.InsertKeepsCapacity | LRUCache17.hpp:90-102 | insert keeps the capacity policy: a bounded cache is below `maxSize + elasticity` or holds at most `maxSize` keys, for new and existing keys alike |
| LruModel.TryGetEffect | LRUCache17.hpp:103-111 | a hit moves the node to the front and keeps the other nodes' order, the arena and the index; a miss changes nothing |
| LruModel.GetAgreesWithTryGet | LRUCache17.hpp:116-124 | get leaves the state tryGet leaves, returns the value where tryGet does, and raises `KeyNotFound` where tryGet returns nothing |
| LruModel.RemoveEffect | LRUCache17.hpp:131-140 | remove returns whether the key was contained; afterwards the key is missing, the size has dropped by exactly one when it was contained, the list and arena are untouched, and no other key's lookup changes |
| LruModel.RemoveOrphans | LRUCache17.hpp:137-138 | a successful remove always leaves an orphan node; an unsuccessful one keeps an orphan-free cache orphan-free |
| LruModel.RemoveKeepsCapacity | LRUCache17.hpp:131-140 | remove keeps the capacity policy |
| LruModel.ClearEffect | LRUCache17.hpp:85-89 | clear leaves an empty, orphan-free cache with an empty walk and no contained key |
| LruModel.WalkCoversIndex | LRUCache17.hpp:149-153 | the walk visits every indexed key with its value |
| LruModel.WalkWithoutOrphans | LRUCache17.hpp:149-153 | without orphans, every walked node is found by lookup with its value, and no key is walked twice |
| Lru17.Cache.constructor | LRUCache17.hpp:74-75 | a new cache is empty and keeps the given limits |
| Lru17.Cache.Size | LRUCache17.hpp:77-80 | `size()` is at most the list length and equals it without orphans. In a bounded cache it is below `maxSize + elasticity` or at most `maxSize` |
| Lru17.Cache.Empty | LRUCache17.hpp:81-84 | `empty()` holds exactly when no listed node is indexed, and without orphans exactly when the list is empty |
| Lru17.Cache.Contains | LRUCache17.hpp:141-144 | `contains` is true exactly when a lookup finds the key; as a function it changes no state |
| Lru17.Cache.MaxAllowedSize | LRUCache17.hpp:148 | the hard limit is `maxSize + elasticity` when that fits in `size_t`, and the sum minus 2^64 when it wraps |
| Lru17.Cache.Walk | LRUCache17.hpp:149-153 | `cwalk` yields the list's nodes in order |
| Lru17.Cache.Clear | LRUCache17.hpp:85-89 | clear empties index and list; afterwards `size() == 0` and `empty()` |
| Lru17.Cache.Insert | LRUCache17.hpp:90-102 | the new state is the model's insert; an indexed key keeps the index unchanged; a key still indexed afterwards is at the front with the new value; the capacity policy is kept |
| Lru17.Cache.Overwrite | LRUCache17.hpp:92-96 | for a present key the new state is the model's insert, the index is unchanged, and the key is at the front with the new value |
| Lru17.Cache.Add | LRUCache17.hpp:99-101 | for a new key the new state is the model's insert (front node, then prune); if the key survives prune it is at the front with its value |
| Lru17.Cache.PushFront | LRUCache17.hpp:99-100 | the new state is the model's growth by a fresh front node indexed under the key |
| Lru17.Cache.Prune | LRUCache17.hpp:156-168 | the new state and returned count are the model's prune |
| Lru17.Cache.PopWhileOver | LRUCache17.hpp:161-167 | the while loop ends in the state and count of the model's loop |
| Lru17.Cache.PopBack | LRUCache17.hpp:163-164 | one round erases the back node's key from the index and pops that node |
| Lru17.Cache.TryGet | LRUCache17.hpp:103-111 | the new state and result are the model's tryGet; the result is the old lookup; a hit is at the front |
| Lru17.Cache.Get | LRUCache17.hpp:116-124 | the new state and result are the model's get; `KeyNotFound` exactly on a miss; a hit returns the old value and is at the front |
| Lru17.Cache.GetCopy | LRUCache17.hpp:128-130 | getCopy behaves exactly as get |
| Lru17.Cache.Remove | LRUCache17.hpp:131-140 | the new state and result are the model's remove; it returns whether the key was contained; afterwards the key is not contained; the list is unchanged |
| TimedLru17.TimedInsert | TimedLRUCache17.hpp:51-53 | inserting a stamped value keeps the invariant |
| TimedLru17.TimedTryGet | TimedLRUCache17.hpp:54-63 | the timed tryGet keeps the invariant |
| TimedLru17.TimedUnsafeGet | TimedLRUCache17.hpp:37-44 | the timed unsafeGet keeps the invariant |
| TimedLru17.TimedTryGetEffect | TimedLRUCache17.hpp:54-63 | tryGet returns the stored value exactly when the key is indexed and not expired. A live hit is promoted. An expired hit is promoted, then unindexed, so its node is an orphan at the front. A miss changes nothing |
| TimedLru17.Expired | TimedLRUCache17.hpp:58 | an entry is expired exactly when `now` is past `time + ttl`, so only an entry from the past can be expired |
| TimedLru17.ExpiryIsFinal | TimedLRUCache17.hpp:58 | an entry that is expired stays expired at every later time |
| TimedLru17.ExpiryBoundary | TimedLRUCache17.hpp:58 | an entry exactly `ttl` old is returned; one a tick older is not |
| TimedLru17.ExpiredStaysMissing | TimedLRUCache17.hpp:54-63 | after a read finds an entry expired, the key is unindexed, and every later tryGet and unsafeGet reports it missing without changing the state |
| TimedLru17.UnsafeGetAgreesWithTryGet | TimedLRUCache17.hpp:37-44 | unsafeGet leaves the state tryGet leaves, returns the value where tryGet does, and raises `KeyNotFound` where tryGet returns nothing, expired entries included |
| TimedLru17.InsertRefreshes | TimedLRUCache17.hpp:51-53 | re-inserting a key refreshes value and timestamp and promotes it, without changing the index; it reads back until `ttl` after the new time |
| TimedLru17.InsertNewReadsBack | TimedLRUCache17.hpp:51-53 | a new key reads back until `ttl` has elapsed, when the cache is unbounded or has no orphans and `maxSize >= 1` |
| TimedLru17.TimedCache.constructor | TimedLRUCache17.hpp:22-23 | a new timed cache owns a fresh, empty inner cache with the given limits and time-to-live |
| TimedLru17.TimedCache.Clear | TimedLRUCache17.hpp:24-26 | clear is the inner clear; afterwards size is 0 and the cache is empty |
| TimedLru17.TimedCache.Empty | TimedLRUCache17.hpp:34-36 | `empty()` holds exactly when the inner index is empty, expired entries included |
| TimedLru17.TimedCache.Size | TimedLRUCache17.hpp:67-69 | `size()` counts the inner index, expired but unread entries included, and keeps the inner capacity policy |
| TimedLru17.TimedCache.MaxAllowedSize | TimedLRUCache17.hpp:50 | the inner cache's hard limit: `maxSize + elasticity`, or that sum minus 2^64 when it wraps |
| TimedLru17.TimedCache.Walk | TimedLRUCache17.hpp:30-33 | `cwalk` yields the inner list with timestamps, in order |
| TimedLru17.TimedCache.Insert | TimedLRUCache17.hpp:51-53 | insert stores `(v, now)` through the inner insert; if the key is indexed afterwards it reads `(v, now)` |
| TimedLru17.TimedCache.TryGet | TimedLRUCache17.hpp:54-63 | the new state and result are those of the timed tryGet |
| TimedLru17.TimedCache.UnsafeGet | TimedLRUCache17.hpp:37-44 | the new state and result are those of the timed unsafeGet |
| TimedLru17.TimedCache.Remove | TimedLRUCache17.hpp:64-66 | remove is the inner remove: it returns whether the key was contained, and afterwards the key is not |
| Scenarios.InsertWithoutEviction | LRUCache17.hpp:156-160 | a new key that keeps the index below `maxSize` is only added; prune does nothing |
| Scenarios.InsertEvictsBack | LRUCache17.hpp:162-164 | a new key that takes the index one past `maxSize` at the hard limit makes prune pop exactly the back node, when the popped node's key is indexed |
| Scenarios.TwoInserts | LRUCache17.hpp:99-101 | inserting A then B into an empty cache with `maxSize` 2 lists B before A |
| Scenarios.ReadOlder | LRUCache17.hpp:109 | reading A moves it in front of B |
| Scenarios.ThirdKeyGrows | LRUCache17.hpp:99-100 | inserting C puts a third node at the front |
| Scenarios.ThirdKeyEvictsBack | LRUCache17.hpp:163-164 | prune pops B's node from the back and unindexes B |
| Scenarios.RecencyDecidesEviction | LRUCache17.hpp:156-168 | with `maxSize` 2 and no elasticity, after insert A, insert B, `get(A)`, insert C: A and C are found, B is not, and the list is C, A |
| Scenarios.RecencyRunEnd | LRUCache17.hpp:149-153 | the final state of that run finds exactly A and C and walks C, A |
| Scenarios.OrphanStepEvictFirst | LRUCache17.hpp:156-168 | inserting A, B, C with `maxSize` 2 evicts A |
| Scenarios.ThirdKeyEvictsFirst | LRUCache17.hpp:163-164 | the prune that C triggers pops A's node |
| Scenarios.OrphanStepReinsert | LRUCache17.hpp:131-140 | removing B leaves its node listed, and inserting B again allocates a second node for B |
| Scenarios.OrphanStepEvictLive | LRUCache17.hpp:162-164 | inserting D pops B's old node and unindexes B, whose entry named B's new node |
| Scenarios.FourthKeyGrows | LRUCache17.hpp:99-100 | D gets a fourth node at the front |
| Scenarios.FourthKeyPopsOrphan | LRUCache17.hpp:163-164 | popping the back removes B's old node and the key B |
| Scenarios.OrphanRunEnd | LRUCache17.hpp:137-138 | the run ends with C and D found, B missing, B's new node listed as an orphan |
| Scenarios.OrphanEvictsLiveKey | LRUCache17.hpp:131-168 | with `maxSize` 2: insert A, B, C, remove B, insert B, insert D. The fresh B reads back until D is inserted; after that B is missing while the older C is kept, and the cache has an orphan |
| Scenarios.SampleTimed | SampleTimed.cpp:11-16 | with a 3000 ms time-to-live, `maxSize` 5 and no elasticity, "Hello" reads back "World" at once and is gone 4000 ms later |

## Left out

- Locking: `NullLock`, the `Lock` parameter and the read and write guards are concurrency plumbing. The model is sequential. In the source, `tryGet` and `get` change the list under a shared guard, which matters only under real threads.
- Clock and durations: `steady_clock` and the `duration<double, std::milli>` type are replaced by an integer `now` argument and a natural-number `ttl` in one common unit. Floating-point durations are not modelled.
- `TimedCache::contains` and `TimedCache::getCopy` are not modelled. They call members `timeToLive(k)` and `get(k)` that `TimedCache` does not have, so neither compiles when used and there is no behaviour to model.
- The `Map` template parameter is not modelled: `unordered_map` and `std::map` are both the Dafny `map` `index`.
- Reference lifetimes are not modelled: `get` and `unsafeGet` return a `const Value&` that is valid until the next insert or delete. The model returns values, so it says nothing about aliasing.
- `cwalk` takes an arbitrary functor in the source. The model instead returns the list contents in order (`Walk`).
- `getMaxSize()` and `getElasticity()` are the constants `maxSize` and `elasticity` of `Lru17.Cache`, and `MaxSize()` and `Elasticity()` of `TimedLru17.TimedCache`. They only return a field and have no row.
- VectorKeyTest.cpp is not part of this model: it is a driver that says itself that it does not work.
- SampleTimed.cpp is modelled only for its expiry check (`Scenarios.SampleTimed`). Its printing and the 4 s sleep are replaced by the second read's `now` argument.
- The scenarios use arbitrary distinct keys and values of any type in place of concrete strings. The exception is `SampleTimed`, which uses the sample's own strings.
