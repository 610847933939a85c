# LRU object cache of the build master, in Dafny

This project models buildbot's object cache, `master/buildbot/util/lru.py`,
and proves properties of the model. The server uses this cache to avoid
rebuilding database-backed objects. It comes in two forms:

- `LRUCache` (module `Lru`, file `lru.dfy`), the synchronous cache. Its state holds:
  - a bounded primary `cache`;
  - a secondary `weakrefs` table, which keeps a value reachable for as long
    as some other component still holds it;
  - an append-only recency `queue` of key references;
  - a `refcount` per key, the number of times the key occurs in the queue;
  - the `hits`, `refhits` and `misses` counters.

  `get`, `put`, `set_max_size`, `_get_hit`, `_ref_key` (append, then compact
  now and then) and `_purge` are pure functions from state to state. The
  consistency check `inv` becomes the predicate `Inv`, and `Valid` adds the
  facts that every operation keeps.
- `AsyncLRUCache` (module `AsyncLru`, file `async_lru.dfy`), the
  request-coalescing cache. It adds `concurrent`, the callers waiting on each
  key whose fetch is still running.
  - A caller's Deferred is named by a `Waiter` id.
  - A fetch's outcome arrives as a separate event, which fires every waiter
    of the key with that one outcome.
  - `System` puts the cache together with the fetches in flight and the
    answers given so far. `Step` and `Run` drive it with any sequence of
    events: `get`, fetch completion, `put`, `set_max_size`, and the garbage
    collector dropping a secondary entry.

`recency.dfy` (module `Recency`) holds the sequence facts behind the LRU
order. `KeepLast(queue)` lists the keys in the order of their last
reference, and that list is the order in which `_purge` evicts. Compaction
leaves it unchanged. `_ref_key` moves the key to its end. A purge removes a
prefix of it. `wrappers.dfy` holds `Option`, which stands for Python's
`None`.

The miss function is a parameter, `K -> Fetch<V>`. Its outcome is
`Fetched(Some(v))`, `Fetched(None)` for a negative lookup, or `Failed` for a
raised exception or a failed Deferred.

The class docstring describes a cache of fixed maximum size
(`master/buildbot/util/lru.py:25-26`), and `max_size` is documented as the
maximum allowed size (`master/buildbot/util/lru.py:47`). The code does not
keep that bound after every operation: the ref-hit branch of `_get_hit`
(`master/buildbot/util/lru.py:172-176`) promotes a key back into the primary
cache without purging. The model follows the code.

- The bound `Bounded` is proved after a caching miss, after a completed async
  fetch that caches, and after a `set_max_size` that changes the bound.
- `set_max_size` with the current bound returns at once
  (`master/buildbot/util/lru.py:112-113`). A cache that a ref-hit left over
  its bound stays over it; `Lru.SetMaxSize` returns the state unchanged.
- `Lru.RefHitGrowsCache` proves that a ref-hit on a full cache leaves it one
  over the bound.

## Model

| member | source | states |
|---|---|---|
| Lru.New | master/buildbot/util/lru.py:53-69 | A new cache records the size bound, has empty tables and zeroed counters, and satisfies the invariant. |
| Lru.Inv | master/buildbot/util/lru.py:119-141 | The consistency check `inv`: the keys of the queue are exactly the keys of the primary cache, and the stored counts equal the counts rebuilt by walking the queue. |
| Lru.OccurrencesCount | master/buildbot/util/lru.py:134-136 | The counts `inv` rebuilds by walking the queue give each key its number of occurrences, and have an entry exactly for the keys of the queue. |
| Lru.CountsArePositive | master/buildbot/util/lru.py:119-141 | Under `inv`, the counted keys are exactly the cached keys. Every stored count is the key's number of occurrences in the queue, so no zero count is stored. |
| Lru.LruOrderIsCacheKeys | master/buildbot/util/lru.py:122-130 | Under `inv`, the LRU order lists every cached key exactly once and no other key. |
| Lru.Reference | master/buildbot/util/lru.py:147-148 | Appending a reference adds one to the key's count (creating it at one), keeps the counts exact, and moves the key to the end of the LRU order. |
| Lru.Compact | master/buildbot/util/lru.py:154-161 | Compaction leaves each key once in the queue. The key set and the LRU order are unchanged, and the counts stay exact. |
| Lru.CompactKeepsLastReferences | master/buildbot/util/lru.py:150-161 | The compacted queue orders keys by the position of their last reference in the old queue, and every count becomes one. |
| Recency.KeepLastOrdersByLastOccurrence | master/buildbot/util/lru.py:150-161 | The last-occurrence order lists keys by strictly increasing position of their last occurrence. |
| Recency.KeepLastIdempotent | master/buildbot/util/lru.py:154-161 | Compacting an already compacted queue changes nothing. |
| Recency.KeepLastAppend | master/buildbot/util/lru.py:147 | One more reference to a key takes it out of its place in the LRU order and puts it last. |
| Lru.RefKey | master/buildbot/util/lru.py:143-161 | `_ref_key` keeps the counts exact and adds the key to the queue's key set. The key becomes the most recent in the LRU order. Below the threshold the queue gains exactly one element; past it the queue is duplicate-free. |
| Lru.PopUntilUnreferenced | master/buildbot/util/lru.py:190-193 | The inner purge loop stops at the first key of the LRU order. The popped queue's LRU order is the rest of the old one, and the counts stay exact. |
| Lru.EvictOne | master/buildbot/util/lru.py:189-195 | One round of the outer loop removes the least recently used key from the cache and from the counts, and leaves the secondary table alone. |
| Lru.PurgeLeavesSuffix | master/buildbot/util/lru.py:189-195 | `_purge` only pops references off the front of the queue: what is left is a suffix of the old queue. |
| Lru.PurgeKeepsSingleReference | master/buildbot/util/lru.py:103-107 | A key referenced once that survives the purge is still referenced once. |
| Lru.Purge | master/buildbot/util/lru.py:178-195 | `_purge` keeps the invariant and stops exactly at the bound: it keeps `min(size, max_size)` keys. The evicted keys are the oldest prefix of the LRU order, and the rest keeps its order. `weakrefs` and the counters are untouched. |
| Lru.PrimaryHit | master/buildbot/util/lru.py:164-168 | A hit returns the cached value, adds one to `hits`, and moves the key to the end of the LRU order; both tables are unchanged. |
| Lru.SecondaryHit | master/buildbot/util/lru.py:172-176 | A ref-hit copies the secondary value into the primary cache, adds one to `refhits`, and makes the key the most recent. |
| Lru.GetHit | master/buildbot/util/lru.py:163-176 | `_get_hit` fails exactly when the key is in neither table. Otherwise it returns the secondary table's value, keeps the invariant, makes the key most recent and counts a hit or a ref-hit. |
| Lru.HitAppendsReference | master/buildbot/util/lru.py:163-176 | Below the compaction threshold, a hit or ref-hit appends exactly one reference to the queue and adds one to the key's count. |
| Lru.RefKeyOnce | master/buildbot/util/lru.py:143-161 | Referencing a key with no reference yet leaves its count at exactly one, whether or not the queue is then compacted. |
| Lru.Insert | master/buildbot/util/lru.py:104-106 | Storing a fetched value puts it in both tables, makes the key the most recent, and leaves its count at exactly one. The invariant is kept. |
| Lru.StoreFetched | master/buildbot/util/lru.py:103-107 | Storing and purging gives a bounded cache. Its size is the old size plus one, capped at the bound. The evicted keys are the oldest of the LRU order extended by the new key. The secondary table gains the value and loses nothing. |
| Lru.Settle | master/buildbot/util/lru.py:103-107 | A value is stored, referenced once and purged. `None` or a failure leaves the cache as it was. No key other than the fetched one is added, and the bound and the counters are untouched. |
| Lru.Get | master/buildbot/util/lru.py:78-109 | A hit or ref-hit returns the known value without counting a miss, and leaves the state `_get_hit` produces: the key becomes the most recent, a ref-hit promotes it into the primary cache, and `hits` or `refhits` goes up. A miss counts one miss and returns the miss function's outcome unchanged. A `None` or a failure leaves the cache as it was. A value is stored, referenced once and purged to the bound, and no other counter moves. Every `get` counts exactly one request and keeps the invariant. |
| Lru.HitIgnoresMissFn | master/buildbot/util/lru.py:94-98 | A hit or ref-hit gives the same result whatever the miss function is, so it is never called. |
| Lru.MissEvictsLeastRecent | master/buildbot/util/lru.py:100-107 | On a full cache, a miss that caches a new key evicts exactly the least recently used key. The new LRU order is the old one without its head, followed by the new key. |
| Lru.RefHitGrowsCache | master/buildbot/util/lru.py:172-176 | A ref-hit grows the primary cache by one without purging. On a full cache this breaks the size bound. |
| Lru.Put | master/buildbot/util/lru.py:71-76 | `put` never inserts a key. A key in the cache is updated in both tables; a key only in `weakrefs` is updated there only; otherwise nothing changes. The queue, counts and counters are never touched, and the invariant is kept. |
| Lru.PutThenGet | master/buildbot/util/lru.py:71-76 | After `put` of a known key, `get` returns the new value without a miss. |
| Lru.PutAbsentThenGet | master/buildbot/util/lru.py:71-76 | `put` of an unknown key is forgotten: the next `get` returns the miss function's outcome. |
| Lru.SetMaxSize | master/buildbot/util/lru.py:111-117 | An unchanged bound changes nothing. Otherwise the bound is set and the queue threshold becomes ten times it (through the invariant). The cache is purged to the new bound, evicting the oldest keys of the LRU order. No key is added, and `weakrefs` and the counters are kept. |
| Lru.Collect | master/buildbot/util/lru.py:66 | The collector drops exactly one secondary entry, whose key is not in the primary cache, and the invariant survives. |
| Lru.CollectedKeyMisses | master/buildbot/util/lru.py:94-102 | Once the secondary entry is dropped, `get` of that key is a miss again. |
| AsyncLru.AsyncNew | master/buildbot/util/lru.py:204-214 | A new coalescing cache wraps exactly a new synchronous cache (zero counters, empty tables and queue), has no fetch in flight, and satisfies the invariant. |
| AsyncLru.AsyncGet | master/buildbot/util/lru.py:216-246 | A hit or ref-hit is answered at once, exactly as `_get_hit`. With a fetch in flight, the caller joins its list, which counts as a hit and starts nothing. Only a true miss counts a miss and creates the list with the caller alone. The invariant is kept. |
| AsyncLru.Fire | master/buildbot/util/lru.py:259-268 | Firing a list of waiters gives one delivery per waiter, in order, all with the same outcome. |
| AsyncLru.Complete | master/buildbot/util/lru.py:248-268 | On completion the key leaves `concurrent`, and each of its waiters is fired once, in order, with the outcome. A value is stored, referenced once for all waiters and purged as a caching miss would. `None` or a failure leaves the cache alone. The bound and the counters are untouched. |
| AsyncLru.CompleteWaiters | master/buildbot/util/lru.py:260-262 | A completion fires exactly the key's waiter list. |
| AsyncLru.CompletionIgnoresWaiters | master/buildbot/util/lru.py:253-257 | The cache after a completion does not depend on how many callers waited: the key is referenced once for all of them. |
| AsyncLru.Boot | master/buildbot/util/lru.py:204-214 | A fresh system is a new coalescing cache with no fetch running and no caller yet, and satisfies the system invariant. |
| AsyncLru.Record | master/buildbot/util/lru.py:261-262 | Firing the deliveries records each waiter's outcome, adds exactly those waiters, and leaves every other answer as it was. |
| AsyncLru.RequestStep | master/buildbot/util/lru.py:216-246 | A `get` leaves the cache exactly as the coalescing `get` does, so hits, ref-hits and misses are counted and the key is made most recent as there. It keeps the system invariant. A hit is answered at once. A caller of a key in flight joins it, with no new fetch. A true miss starts exactly one fetch. |
| AsyncLru.ResolveStep | master/buildbot/util/lru.py:248-270 | A completion leaves the cache exactly as the completion handlers do (the key referenced once, the value stored and purged, counters and bound untouched). It keeps the system invariant and ends its fetch. It answers every waiter of the key, none answered before, with the outcome. Earlier answers stand. |
| AsyncLru.StoreStep | master/buildbot/util/lru.py:71-76 | `put` on the coalescing cache keeps the system invariant and leaves fetches and callers alone. |
| AsyncLru.ResizeStep | master/buildbot/util/lru.py:111-117 | `set_max_size` on the coalescing cache keeps the system invariant and leaves fetches and callers alone. |
| AsyncLru.DropStep | master/buildbot/util/lru.py:66 | The collector dropping a secondary entry keeps the system invariant. |
| AsyncLru.Step | master/buildbot/util/lru.py:216-273 | Every event that can happen keeps the system invariant, and no answer already given is changed. An event is refused exactly when it cannot happen: a completion of a key with no fetch running, or a collection of a key that is not only in the secondary table. |
| AsyncLru.Run | master/buildbot/util/lru.py:216-273 | Any sequence of events keeps the system invariant and every answer already given. |
| AsyncLru.OneFetchPerKey | master/buildbot/util/lru.py:238-246 | In every state reachable this way, at most one miss-function call per key is running, exactly when the key is in `concurrent`. |
| AsyncLru.AnsweredOnce | master/buildbot/util/lru.py:259-262 | A waiter fired by a completion had no answer before, gets the outcome, and is no longer waiting. |
| AsyncLru.QuiescentAnswered | master/buildbot/util/lru.py:259-268 | When no fetch is in flight, every caller so far has been answered. |
| AsyncLru.TwoWaiters | master/buildbot/util/lru.py:230-244 | Two `get`s of a missing key start one fetch, and the second caller queues behind the first. |
| AsyncLru.Coalesced | master/buildbot/util/lru.py:230-262 | Two `get`s of a missing key and one completion: the miss function ran once, and both callers get the same outcome. |

## Left out

- The scheduler engine and its test file `master/buildbot/test/unit/test_schedulers_base.py` are not part of this model. The scheduler implementation they test is not among the files modelled.
- Twisted's Deferred machinery is not modelled. A Deferred is a waiter id, and firing it is recorded as a delivery.
- `miss_d.addErrback(log.err)` at line 271 only logs errors, so it is not modelled. An exception raised inside `handle_result` itself is not modelled either.
- The `log.msg` reporting in `inv` is not modelled: `inv` is the predicate `Inv`. The module flag `inv_failed` (line 277) is diagnostic only and is left out.
- The `**miss_fn_kwargs` pass-through is left out. The miss function is a function of the key alone, as the docstring of `get` asks callers to ensure.
- The timing of `WeakValueDictionary` collection is not modelled. Collection is an explicit event, `Collect` / `Drop`, that may drop any secondary entry whose key is not in the primary cache.
- The `sentinel` object used by the compaction loop is not modelled. Compaction is modelled directly as keeping the last occurrence of each key, in order (`KeepLast`).
- Lru.New: `max_size` is a `nat`. A negative bound would make `_purge` pop an empty deque (line 192) and raise IndexError.
- Lru.SetMaxSize: the new bound is a `nat`, in `AsyncLru.ResizeStep` too. `set_max_size(-1)` would set the bound and then raise IndexError in `_purge` (line 192).
- The default `max_size=50` of both constructors (lines 53 and 204) is not modelled. `Lru.New`, `AsyncLru.AsyncNew` and `AsyncLru.Boot` take the bound explicitly, and 50 is one value of it.
- AsyncLru.AsyncGet: the miss function must return a Deferred (line 209), so a miss function that raises synchronously is not modelled. That would leave the key in `concurrent` with no fetch running.
- The order of events is free. A miss function whose Deferred has already fired when `get` calls `addCallbacks` is modelled as the `Request` event immediately followed by its `Resolve`.
