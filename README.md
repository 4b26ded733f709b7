# LRU cache bookkeeping, modelled in Dafny

The repository holds two independent in-memory LRU caches written in Go:

- `LRUCache` in `frontend/main.go`: a `container/list` recency list (`eviction`,
  front = most recently used) and a map from key to list element. `Get` moves a
  hit to the front. `Set` overwrites an existing key and moves it to the front;
  for a new key it first calls `evictLRU` when the map already holds `capacity`
  or more entries, then pushes the new entry at the front. `evictLRU` removes
  the back element from the list and its key from the map, and does nothing on
  an empty list.
- `LRUcache` in `backend/util/util.go`: a map from key to node and a list.
  `Get` moves a hit to the head. `Set` overwrites an existing key and moves it
  to the head; a new key is stored, appended at the BACK of the list, and then
  `removeLeastRecentlyUsed` removes the back element when the list is longer
  than `capacity`.

Both are modelled the same way, one module per source file:

- `Recency` (shared): keys, the duplicate-free recency order, the operations on
  it (`MoveToFront`, `Without`, `DropBack`, `PushFront`, `PushBack`), the
  `Snapshot` value `(capacity, order, values)` whose `Valid()` invariant says
  that the map's keys are exactly the keys of the order, each once, and the
  history of touched keys (`Touched`, `LastTouch`, `RecencyOrdered`) used to
  state what "least recently used" means independently of the list.
- `Frontend` and `Backend`: for each Go method a step function on snapshots
  (`GetSpec`, `SetSpec`, `EvictLRUSpec`; `GetSpec`, `SetSpec`,
  `RemoveLeastRecentlyUsedSpec`, `MoveToHeadSpec`) whose contract states the
  method's effect, the class with the Go struct's fields (the list as a
  `seq<Key>`, the map as a `map<Key, V>`) whose methods follow the Go code
  statement by statement and are proved to produce exactly the step function's
  result, and lemmas about whole call sequences (`Run` for any mix of calls,
  `SetAll` for a series of Sets).

Values are a type parameter `V` (the Go code stores `interface{}`); Go's
`(value, found)` result of `Get` is `Option<V>`: `None` for `(nil, false)`,
`Some(v)` for `(v, true)`.

### What the backend copy does, and how the model reads it

`backend/util/util.go` does not compile as written: `c.list.Remove` is given a
`*Node` instead of a `*list.Element` (lines 69 and 76), and the sentinel
`head`/`tail` nodes (lines 34-36) are never linked into `c.list`. The model
follows the evident intent of each call: `PushBack` appends the key at the back
(line 62), `moveToHead` removes the key and pushes it at the head (lines 76-77),
and `c.list.Remove(c.tail.prev)` removes the back key (line 69).

Read that way, the backend is not an LRU cache for new keys: a new key is
appended at the back, and the back is also what `removeLeastRecentlyUsed`
removes. So a `Set` of a new key into a full cache removes that same key again
and leaves the cache exactly as it was (`Backend.SetIntoFullCacheIsNoOp`,
`Backend.SetIntoFullCacheIsLost`); with capacity N, N + 1 distinct `Set`s lose
the newest key, not the oldest (`Backend.DistinctSetsDropNewest`); and the list
is not ordered by recency (`Backend.NewKeysAreNotMostRecent`). The model keeps
this behaviour rather than the frontend's.

## Model

| member | source | states |
|---|---|---|
| `Recency.Without` | backend/util/util.go:76 | taking a key out of the list leaves exactly the other keys, keeps the list duplicate-free, and leaves a list without that key unchanged |
| `Recency.WithoutCounts` | backend/util/util.go:76 | every copy of the removed key goes and every other key keeps its number of occurrences |
| `Recency.MoveToFront` | backend/util/util.go:76-77 | the key ends up first, the other keys follow in their old order, the set of keys is unchanged and the list stays duplicate-free (the list's `MoveToFront`, also frontend/main.go:43) |
| `Recency.MoveToFrontPermutes` | frontend/main.go:43 | on a duplicate-free list, moving a cached key to the front yields a permutation of the list, of the same length |
| `Recency.DropBack` | frontend/main.go:64-66 | taking the back key out of list and map leaves the rest of the list as it was, removes exactly that key from the map and keeps the invariant (also backend/util/util.go:69-70) |
| `Recency.PushFront` | frontend/main.go:58-59 | a new key added at the front of the list and to the map keeps the invariant and grows the map by one |
| `Recency.PushBack` | backend/util/util.go:61-62 | a new key stored in the map and appended at the back of the list keeps the invariant and grows the map by one |
| `Recency.Empty` | frontend/main.go:23-27 | a new cache has an empty list and map and satisfies the invariant (also backend/util/util.go:28-33) |
| `Recency.SizesAgree` | frontend/main.go:55 | under the invariant `len(cache)` equals the list's length, so the map-size test is a list-length test |
| `Frontend.GetSpec` | frontend/main.go:41-47 | a miss returns `None` and changes nothing; a hit returns the stored value, puts the key first, keeps the other keys' order and leaves the map unchanged |
| `Frontend.GetPermutes` | frontend/main.go:43 | a hit only permutes the list |
| `Frontend.EvictLRUSpec` | frontend/main.go:63-68 | on an empty list nothing changes; otherwise exactly the back key leaves both list and map, the other entries untouched |
| `Frontend.SetSpec` | frontend/main.go:49-61 | after any Set the key is cached with the new value, it is first in the list, and the invariant holds |
| `Frontend.SetOverwrites` | frontend/main.go:51-53 | Set of a cached key only replaces its value and permutes the list, moving the key first; nothing is evicted |
| `Frontend.SetInsertsBelowCapacity` | frontend/main.go:55-59 | Set of a new key while the map holds fewer than `capacity` entries pushes it at the front and evicts nothing |
| `Frontend.SetEvictsAtCapacity` | frontend/main.go:55-59 | Set of a new key while the map holds `capacity` or more entries removes the back key and pushes the new key at the front |
| `Frontend.SetKeepsCapacity` | frontend/main.go:55-59 | with capacity at least 1, a cache within capacity stays within it after any Set |
| `Frontend.SetWithoutCapacity` | frontend/main.go:55-59 | with capacity 0 or less the cache settles at exactly one entry, because evicting from an empty list does nothing |
| `Frontend.GetAfterSet` | frontend/main.go:41-61 | a Get right after Set(key, value) returns value |
| `Frontend.RunWithinCapacity` | frontend/main.go:41-68 | from a new cache, no sequence of Get and Set calls holds more than `capacity` entries (more than one when the capacity is below 1) |
| `Frontend.RunKeepsRecencyOrder` | frontend/main.go:41-68 | from a new cache, after any calls, the list runs from the most recently touched key to the least recently touched one |
| `Frontend.SetEvictsOnlyBack` | frontend/main.go:55-57 | the only key a Set can remove is the back of the list |
| `Frontend.BackIsOldest` | frontend/main.go:64 | in a recency-ordered cache the back key was touched before every other cached key |
| `Frontend.EvictsLeastRecentlyTouched` | frontend/main.go:49-68 | any key a Set evicts is, of all cached keys, the one touched longest ago |
| `Frontend.FillFromEmpty` | frontend/main.go:55-59 | up to capacity distinct Sets on a new cache evict nothing and stack up newest first |
| `Frontend.StackedEvictsFirst` | frontend/main.go:55-58 | a full cache of distinct keys evicts the first-set key on the next new Set |
| `Frontend.DistinctSetsEvictFirst` | frontend/main.go:49-68 | with capacity N, N + 1 distinct Sets and no Get evict the first key and keep the other N with their values |
| `Frontend.GetRefreshesRecency` | frontend/main.go:41-68 | with capacity 2, Set A, Set B, Get A, Set C leaves exactly A and C: the Get refreshed A, so B is evicted |
| `Frontend.LRUCache.constructor` | frontend/main.go:23-27 | a new cache is empty, valid and has the given capacity |
| `Frontend.LRUCache.Get` | frontend/main.go:41-47 | the result and the new list and map are those of `GetSpec` |
| `Frontend.LRUCache.Set` | frontend/main.go:49-61 | the new list and map are those of `SetSpec` |
| `Frontend.LRUCache.EvictLRU` | frontend/main.go:63-68 | the new list and map are those of `EvictLRUSpec` |
| `Backend.MoveToHeadSpec` | backend/util/util.go:75-78 | the key goes to the head, the other keys keep their order, and the map is unchanged |
| `Backend.MoveToHeadPermutes` | backend/util/util.go:75-78 | moveToHead only permutes the list and keeps its length |
| `Backend.GetSpec` | backend/util/util.go:43-50 | a miss returns `None` and changes nothing; a hit returns the stored value, puts the key at the head and leaves the map unchanged |
| `Backend.RemoveLeastRecentlyUsedSpec` | backend/util/util.go:67-72 | nothing changes unless the list is longer than the capacity; then exactly the back key leaves list and map |
| `Backend.SetSpec` | backend/util/util.go:53-64 | the invariant holds after any Set, and a key that was cached gets the new value and goes to the head |
| `Backend.SetOverwrites` | backend/util/util.go:55-58 | Set of a cached key only replaces its value and permutes the list, moving the key to the head; nothing is removed |
| `Backend.SetAppendsBelowCapacity` | backend/util/util.go:60-63 | Set of a new key while the list is shorter than the capacity appends it at the back and removes nothing |
| `Backend.SetIntoFullCacheIsNoOp` | backend/util/util.go:60-71 | Set of a new key while the list holds `capacity` or more keys leaves the cache exactly as it was: the appended key is the back one removed |
| `Backend.SetKeepsCapacity` | backend/util/util.go:60-71 | a list within capacity stays within it after any Set |
| `Backend.SetWithoutCapacity` | backend/util/util.go:60-71 | with a negative capacity a Set leaves an empty cache empty |
| `Backend.SetIntoFullCacheIsLost` | backend/util/util.go:43-71 | after a Set of a new key into a full cache, a Get of that key misses |
| `Backend.GetAfterSet` | backend/util/util.go:43-64 | for a cached key, or below capacity, a Get right after Set(key, value) returns value |
| `Backend.RunWithinCapacity` | backend/util/util.go:43-78 | from a new cache, no sequence of Get and Set calls makes the list longer than the capacity (than 0 when the capacity is negative) |
| `Backend.FillFromEmpty` | backend/util/util.go:60-63 | up to capacity distinct Sets on a new cache remove nothing and queue up oldest first |
| `Backend.QueuedFullDropsNext` | backend/util/util.go:60-71 | a full cache of distinct keys keeps them all and loses the next new key |
| `Backend.DistinctSetsDropNewest` | backend/util/util.go:53-71 | with capacity N, N + 1 distinct Sets keep the first N keys with their values and lose the newest |
| `Backend.SetPastCapacityDropsNewKey` | backend/util/util.go:43-71 | with capacity 2, Set A, Set B, Get A, Set C leaves exactly A and B |
| `Backend.NewKeysAreNotMostRecent` | backend/util/util.go:60-63 | after Set A, Set B the list is [A, B], which is not ordered by recency |
| `Backend.LRUcache.constructor` | backend/util/util.go:28-33 | a new cache is empty, valid and has the given capacity |
| `Backend.LRUcache.Get` | backend/util/util.go:43-50 | the result and the new list and map are those of `GetSpec` |
| `Backend.LRUcache.Set` | backend/util/util.go:53-64 | the new list and map are those of `SetSpec` |
| `Backend.LRUcache.RemoveLeastRecentlyUsed` | backend/util/util.go:67-72 | the new list and map are those of `RemoveLeastRecentlyUsedSpec` |
| `Backend.LRUcache.MoveToHead` | backend/util/util.go:75-78 | the new list and map are those of `MoveToHeadSpec` |

## Left out

- The ticker goroutine of `NewLRUCache` (frontend/main.go:28-36) and the cleanup ticker and `cleanupLoop` of `NewLRUcache` (backend/util/util.go:37-38, 81-91): they are timing and concurrency; `cleanupLoop` removes nothing. An `evictLRU` call between two client calls is described by `Frontend.EvictLRUSpec`.
- The ticker's `evictLRU` racing with `Get`/`Set` (frontend/main.go:32-36): it runs without a lock on the map and list, so it can evict the element a `Set` has just looked up, leaving the key uncached after the `Set`; the model has no such interleaving, and the whole-run lemmas (`Frontend.RunWithinCapacity`, `Frontend.RunKeepsRecencyOrder`, `Frontend.EvictsLeastRecentlyTouched`) assume no ticker eviction.
- `accessMap` and its `time.Now()` stamps (frontend/main.go:19, 50): written, never read; clocks are not modelled.
- `sync.Map` (backend/util/util.go:20): modelled as a plain sequential map; concurrent interleavings of calls are not modelled.
- List elements and nodes as pointers: the list is a sequence of keys and the map holds values directly, so overwriting `entry.value` or `Node.value` through a pointer is a map update and aliasing is not modelled.
- The `main` demo (frontend/main.go:70-96) and the commented-out demo (backend/util/util.go:93-107): they print and sleep.
- TTL expiry, `Delete` and a capacity check at construction: not in the code.
- `Backend.RemoveLeastRecentlyUsedSpec`: with a negative capacity and an empty list the source's intent (removing the element before an unlinked tail sentinel) is undefined; the model does nothing there. `Set` never reaches that case, since it calls the removal right after appending.
- The HTTP handlers under backend/restapi/handlers: transport glue over a controller that is not part of this model.
