/**
 The synchronous least-recently-used object cache (`LRUCache`).

 A state holds a bounded primary `cache`, a secondary `weakrefs` table whose
 entries survive eviction for as long as someone else holds the value, an
 append-only recency `queue` of key references, a `refcount` of how often
 each key occurs in `queue`, and three request counters. Every operation is
 a pure transition from one state to the next.
 */
module Lru {
  import opened Wrappers
  import opened Recency

  /** The recency queue is compacted once it is longer than `QueueSizeFactor` times the size bound. */
  const QueueSizeFactor: nat := 10

  /** The outcome of one call of the miss function: a value (`None` is a negative lookup) or a raised failure. */
  datatype Fetch<V> = Fetched(value: Option<V>) | Failed

  datatype Cache<K, V> = Cache(
    maxSize: nat,
    maxQueue: nat,
    queue: seq<K>,
    cache: map<K, V>,
    weakrefs: map<K, V>,
    refcount: map<K, nat>,
    hits: nat,
    refhits: nat,
    misses: nat)

  /** What the inner loop of `_purge` leaves behind: the evicted key, the rest of the queue, the counts. */
  datatype Popped<K> = Popped(key: K, queue: seq<K>, refcount: map<K, nat>)

  /** A lookup answered from the primary cache or the secondary table. */
  datatype Hit<K, V> = Hit(state: Cache<K, V>, value: V)

  /** The state after a `get` and what the caller receives. */
  datatype Lookup<K, V> = Lookup(state: Cache<K, V>, answer: Fetch<V>)

  /**
   The expected counts that `inv` rebuilds by walking the queue: one more for
   each occurrence of a key.
   */
  function Occurrences<K(==)>(q: seq<K>): map<K, nat>
  {
    if q == [] then map[]
    else
      var init := Occurrences(q[..|q| - 1]);
      var k := q[|q| - 1];
      init[k := RefCount(init, k) + 1]
  }

  /** The rebuilt count of a key is its number of occurrences, and only keys of the queue have one. */
  lemma {:induction false} OccurrencesCount<K(!new)>(q: seq<K>, k: K)
    ensures k in Occurrences(q) <==> k in q
    ensures RefCount(Occurrences(q), k) == multiset(q)[k]
  {
    if q != [] {
      var init := q[..|q| - 1];
      OccurrencesCount(init, k);
      assert q == init + [q[|q| - 1]];
      assert multiset(q) == multiset(init) + multiset{q[|q| - 1]};
    }
  }

  /** Appending a reference to `x` adds one to its count, creating the entry if needed (`_ref_key`). */
  lemma OccurrencesAppend<K(!new)>(q: seq<K>, x: K)
    ensures Occurrences(q + [x]) == Occurrences(q)[x := RefCount(Occurrences(q), x) + 1]
  {
    assert (q + [x])[..|q|] == q;
  }

  /** The count of the whole queue is the count of its tail plus one for the head. */
  lemma {:induction false} OccurrencesCons<K(!new)>(q: seq<K>)
    requires q != []
    ensures Occurrences(q) == Occurrences(q[1..])[q[0] := RefCount(Occurrences(q[1..]), q[0]) + 1]
  {
    if |q| > 1 {
      var init := q[..|q| - 1];
      var last := q[|q| - 1];
      OccurrencesCons(init);
      assert init[1..] == q[1..][..|q| - 2];
      assert q[1..] == init[1..] + [last];
      OccurrencesAppend(init[1..], last);
    } else {
      assert q[..0] == [] && q[1..] == [];
    }
  }

  /** `refcount` is exactly the count of each key of `queue`. */
  ghost predicate Counted<K(!new)>(queue: seq<K>, refcount: map<K, nat>)
  {
    refcount == Occurrences(queue)
  }

  /** The consistency check `inv`: the queue's keys are the cache's keys, and the counts are right. */
  ghost predicate Inv<K(!new), V>(c: Cache<K, V>)
  {
    && Counted(c.queue, c.refcount)
    && Elements(c.queue) == c.cache.Keys
  }

  /**
   Under the invariant every stored count is the key's number of
   occurrences in the queue, so no zero count is stored and the counted keys
   are exactly the cached ones.
   */
  lemma CountsArePositive<K(!new), V>(c: Cache<K, V>)
    requires Inv(c)
    ensures c.refcount.Keys == c.cache.Keys
    ensures forall k :: k in c.refcount ==> c.refcount[k] == multiset(c.queue)[k] >= 1
  {
    forall k
      ensures k in c.refcount <==> k in c.cache
      ensures k in c.refcount ==> c.refcount[k] == multiset(c.queue)[k] >= 1
    {
      OccurrencesCount(c.queue, k);
    }
  }

  /** The primary cache holds strong references, so its entries are always in the secondary table too. */
  ghost predicate Mirrored<K(!new), V>(cache: map<K, V>, weakrefs: map<K, V>)
  {
    forall k :: k in cache ==> k in weakrefs && weakrefs[k] == cache[k]
  }

  /** Everything every public operation preserves. */
  ghost predicate Valid<K(!new), V>(c: Cache<K, V>)
  {
    && Inv(c)
    && Mirrored(c.cache, c.weakrefs)
    && c.maxQueue == c.maxSize * QueueSizeFactor
  }

  /** The size bound, which holds after purging but not after every lookup. */
  ghost predicate Bounded<K, V>(c: Cache<K, V>)
  {
    |c.cache| <= c.maxSize
  }

  /** The keys of the queue from least to most recently referenced. */
  function LruOrder<K(==,!new), V>(c: Cache<K, V>): seq<K>
  {
    KeepLast(c.queue)
  }

  /** Number of `get` calls answered so far. */
  function Requests<K, V>(c: Cache<K, V>): nat
  {
    c.hits + c.refhits + c.misses
  }

  /** Under the invariant, the LRU order lists every cached key exactly once. */
  lemma LruOrderIsCacheKeys<K(!new), V>(c: Cache<K, V>)
    requires Inv(c)
    ensures forall k :: k in LruOrder(c) <==> k in c.cache
    ensures NoDup(LruOrder(c))
    ensures |LruOrder(c)| == |c.cache|
  {
    KeepLastMembers(c.queue);
    NoDupCardinality(LruOrder(c));
    assert Elements(LruOrder(c)) == c.cache.Keys;
  }

  /** A fresh cache (`__init__`). */
  function New<K(==,!new), V>(maxSize: nat): (c: Cache<K, V>)
    ensures Valid(c) && Bounded(c)
    ensures c.maxSize == maxSize
    ensures c.cache == map[] && c.weakrefs == map[]
    ensures LruOrder(c) == [] && Requests(c) == 0
  {
    Cache(maxSize, maxSize * QueueSizeFactor, [], map[], map[], map[], 0, 0, 0)
  }

  /** The count of `k`, reading a missing entry as zero, like the `defaultdict(lambda : 0)` the cache keeps its counts in. */
  function RefCount<K(==)>(refcount: map<K, nat>, k: K): nat
  {
    if k in refcount then refcount[k] else 0
  }

  /** Compaction keeps one count of one per key of the compacted queue. */
  lemma CompactedCounts<K(!new)>(q: seq<K>)
    ensures Counted(KeepLast(q), map k | k in q :: 1)
  {
    var rc := map k | k in q :: 1;
    var counts := Occurrences(KeepLast(q));
    KeepLastMembers(q);
    forall k
      ensures k in counts <==> k in rc
      ensures k in rc ==> counts[k] == rc[k]
    {
      OccurrencesCount(KeepLast(q), k);
      NoDupOccursOnce(KeepLast(q), k);
    }
  }

  /**
   The compaction branch of `_ref_key`: the queue is rewritten to hold each
   key once, at the place of its last reference, and every count becomes one.
   */
  function Compact<K(==,!new), V>(c: Cache<K, V>): (r: Cache<K, V>)
    ensures NoDup(r.queue)
    ensures Elements(r.queue) == Elements(c.queue)
    ensures LruOrder(r) == LruOrder(c)
    ensures Counted(r.queue, r.refcount)
    ensures r == c.(queue := r.queue, refcount := r.refcount)
  {
    KeepLastIdempotent(c.queue);
    KeepLastElements(c.queue);
    CompactedCounts(c.queue);
    c.(queue := KeepLast(c.queue), refcount := map k | k in c.queue :: 1)
  }

  /**
   The compacted queue lists the keys by the position of their last
   reference in the old queue, and every count is one.
   */
  lemma CompactKeepsLastReferences<K(!new), V>(c: Cache<K, V>)
    ensures var r := Compact(c);
      && (forall i, j :: 0 <= i < j < |r.queue| ==> LastIndex(c.queue, r.queue[i]) < LastIndex(c.queue, r.queue[j]))
      && (forall k :: k in r.refcount ==> r.refcount[k] == 1)
  {
    KeepLastOrdersByLastOccurrence(c.queue);
  }

  /**
   `_ref_key`: append one reference to `key`, then compact the queue when it
   has grown past `maxQueue`. Either way `key` becomes the most recently used.
   */
  function RefKey<K(==,!new), V>(c: Cache<K, V>, key: K): (r: Cache<K, V>)
    requires Counted(c.queue, c.refcount)
    ensures Counted(r.queue, r.refcount)
    ensures Elements(r.queue) == Elements(c.queue) + {key}
    ensures LruOrder(r) == Without(LruOrder(c), key) + [key]
    ensures |c.queue| < c.maxQueue ==> r.queue == c.queue + [key]
    ensures |c.queue| >= c.maxQueue ==> NoDup(r.queue)
    ensures r == c.(queue := r.queue, refcount := r.refcount)
  {
    var appended := Reference(c, key);
    if |appended.queue| > c.maxQueue then Compact(appended) else appended
  }

  /** The first half of `_ref_key`: one more reference to `key` at the end of the queue, counted. */
  function Reference<K(==,!new), V>(c: Cache<K, V>, key: K): (r: Cache<K, V>)
    requires Counted(c.queue, c.refcount)
    ensures Counted(r.queue, r.refcount)
    ensures r.queue == c.queue + [key]
    ensures Elements(r.queue) == Elements(c.queue) + {key}
    ensures LruOrder(r) == Without(LruOrder(c), key) + [key]
    ensures r == c.(queue := r.queue, refcount := r.refcount)
  {
    KeepLastAppend(c.queue, key);
    OccurrencesAppend(c.queue, key);
    ElementsAppend(c.queue, key);
    c.(queue := c.queue + [key], refcount := c.refcount[key := RefCount(c.refcount, key) + 1])
  }

  /** Referencing a key that was just put in the primary cache restores the invariant. */
  lemma RefKeyRestoresValid<K(!new), V>(c: Cache<K, V>, key: K)
    requires Counted(c.queue, c.refcount) && Elements(c.queue) + {key} == c.cache.Keys
    requires Mirrored(c.cache, c.weakrefs) && c.maxQueue == c.maxSize * QueueSizeFactor
    ensures Valid(RefKey(c, key))
  {
  }

  /**
   The inner loop of `_purge`: pop references off the front of the queue,
   decrementing each key's count, until a key's count reaches zero; that key
   has no newer reference and is the least recently used one.
   */
  function PopUntilUnreferenced<K(==,!new)>(queue: seq<K>, refcount: map<K, nat>): (r: Popped<K>)
    requires queue != [] && Counted(queue, refcount)
    ensures Counted(r.queue, r.refcount)
    ensures r.key == KeepLast(queue)[0]
    ensures KeepLast(r.queue) == KeepLast(queue)[1..]
    decreases |queue|
  {
    var k := queue[0];
    HeadCounted(queue, refcount);
    var refc := refcount[k] - 1;
    if refc == 0 then
      PopUnreferenced(queue, refcount);
      Popped(k, queue[1..], refcount - {k})
    else
      PopReferenced(queue, refcount);
      var r := PopUntilUnreferenced(queue[1..], refcount[k := refc]);
      assert KeepLast(queue)[1..] == KeepLast(queue[1..])[1..];
      r
  }

  /** The head of a non-empty queue has a count of at least one. */
  lemma HeadCounted<K(!new)>(queue: seq<K>, refcount: map<K, nat>)
    requires queue != [] && Counted(queue, refcount)
    ensures queue[0] in refcount && refcount[queue[0]] >= 1
  {
    OccurrencesCount(queue, queue[0]);
  }

  /** A head whose count is one has no later reference: it is the least recently used key. */
  lemma PopUnreferenced<K(!new)>(queue: seq<K>, refcount: map<K, nat>)
    requires queue != [] && Counted(queue, refcount) && RefCount(refcount, queue[0]) == 1
    ensures queue[0] !in queue[1..]
    ensures Counted(queue[1..], refcount - {queue[0]})
    ensures KeepLast(queue) == [queue[0]] + KeepLast(queue[1..])
  {
    var k := queue[0];
    OccurrencesCons(queue);
    OccurrencesCount(queue[1..], k);
    assert refcount - {k} == Occurrences(queue[1..]);
  }

  /** A head whose count is above one is referenced again later: popping it decrements its count. */
  lemma PopReferenced<K(!new)>(queue: seq<K>, refcount: map<K, nat>)
    requires queue != [] && Counted(queue, refcount) && RefCount(refcount, queue[0]) > 1
    ensures queue[1..] != [] && queue[0] in refcount
    ensures Counted(queue[1..], refcount[queue[0] := refcount[queue[0]] - 1])
    ensures KeepLast(queue) == KeepLast(queue[1..])
  {
    var k := queue[0];
    OccurrencesCons(queue);
    var tail := Occurrences(queue[1..]);
    OccurrencesCount(queue[1..], k);
    assert refcount[k] - 1 == tail[k];
    assert refcount[k := refcount[k] - 1] == tail;
  }

  /** Popping the least recently used key removes exactly that key from the key set. */
  lemma PoppedElements<K(!new)>(queue: seq<K>, rest: seq<K>)
    requires queue != [] && KeepLast(rest) == KeepLast(queue)[1..]
    ensures KeepLast(queue) != []
    ensures Elements(rest) == Elements(queue) - {KeepLast(queue)[0]}
  {
    var order := KeepLast(queue);
    KeepLastMembers(queue);
    KeepLastMembers(rest);
    assert order == [order[0]] + order[1..];
    NoDupTail(order);
  }

  /**
   One round of the outer loop of `_purge`: the key whose count reached zero
   is deleted from the primary cache and from the counts.
   */
  function EvictOne<K(==,!new), V>(c: Cache<K, V>): (r: Cache<K, V>)
    requires Inv(c) && |c.cache| > 0
    ensures Inv(r)
    ensures |LruOrder(c)| == |c.cache|
    ensures r.cache == c.cache - {LruOrder(c)[0]}
    ensures |r.cache| == |c.cache| - 1
    ensures LruOrder(r) == LruOrder(c)[1..]
    ensures r == c.(queue := r.queue, cache := r.cache, refcount := r.refcount)
  {
    LruOrderIsCacheKeys(c);
    var p := PopUntilUnreferenced(c.queue, c.refcount);
    PoppedElements(c.queue, p.queue);
    c.(queue := p.queue, cache := c.cache - {p.key}, refcount := p.refcount)
  }

  /**
   Purging `m`, listed from least to most recently used in `order`, down to
   `maxSize` entries left `mRest`, listed in `rest`: the oldest keys were
   evicted, as many as were over the bound, and nothing else changed.
   */
  ghost predicate PrefixEvicted<K, V>(order: seq<K>, m: map<K, V>, rest: seq<K>, mRest: map<K, V>, maxSize: nat)
  {
    && |order| == |m|
    && |mRest| == (if |m| <= maxSize then |m| else maxSize)
    && mRest == m - Elements(order[..|m| - |mRest|])
    && rest == order[|m| - |mRest|..]
  }

  /**
   `_purge`: while the primary cache is larger than `maxSize`, evict the least
   recently used key. The evicted keys are a prefix of the LRU order, and the
   secondary table is left alone.
   */
  function Purge<K(==,!new), V>(c: Cache<K, V>): (r: Cache<K, V>)
    requires Inv(c)
    ensures Inv(r)
    ensures PrefixEvicted(LruOrder(c), c.cache, LruOrder(r), r.cache, c.maxSize)
    ensures r == c.(queue := r.queue, cache := r.cache, refcount := r.refcount)
    decreases |c.cache|
  {
    LruOrderIsCacheKeys(c);
    if |c.cache| <= c.maxSize then c
    else
      var next := EvictOne(c);
      var r := Purge(next);
      PurgeStep(LruOrder(c), c.cache, LruOrder(next), next.cache, LruOrder(r), r.cache, c.maxSize);
      r
  }

  /** A purge only removes keys. */
  lemma PrefixEvictedKeys<K, V>(order: seq<K>, m: map<K, V>, rest: seq<K>, mRest: map<K, V>, maxSize: nat)
    requires PrefixEvicted(order, m, rest, mRest, maxSize)
    ensures mRest.Keys <= m.Keys
  {
  }

  /**
   One eviction followed by the purge of what is left is a purge of the
   whole: stated on the LRU orders and primary caches of the three states.
   */
  lemma PurgeStep<K, V>(order: seq<K>, m: map<K, V>, next: seq<K>, mNext: map<K, V>,
                        rest: seq<K>, mRest: map<K, V>, maxSize: nat)
    requires |m| > maxSize && |order| == |m|
    requires mNext == m - {order[0]} && |mNext| == |m| - 1 && next == order[1..]
    requires PrefixEvicted(next, mNext, rest, mRest, maxSize)
    ensures PrefixEvicted(order, m, rest, mRest, maxSize)
  {
    EvictedPrefix(order, m, |m| - |mRest|);
  }

  /** Evicting the head and then `n - 1` further keys of the rest of the order evicts the first `n` keys. */
  lemma EvictedPrefix<K, V>(order: seq<K>, m: map<K, V>, n: nat)
    requires 1 <= n <= |order|
    ensures (m - {order[0]}) - Elements(order[1..][..n - 1]) == m - Elements(order[..n])
    ensures order[1..][n - 1..] == order[n..]
  {
    assert order[..n] == [order[0]] + order[1..][..n - 1];
    assert Elements(order[..n]) == {order[0]} + Elements(order[1..][..n - 1]);
    RemoveTwice(m, {order[0]}, Elements(order[1..][..n - 1]));
  }

  /** Removing two key sets one after the other removes their union. */
  lemma RemoveTwice<K, V>(m: map<K, V>, a: set<K>, b: set<K>)
    ensures (m - a) - b == m - (a + b)
  {
  }

  /** The first branch of `_get_hit`: a hit in the primary cache counts and references the key. */
  function PrimaryHit<K(==,!new), V>(c: Cache<K, V>, key: K): (r: Hit<K, V>)
    requires Valid(c) && key in c.cache
    ensures Valid(r.state)
    ensures r.value == c.cache[key] == c.weakrefs[key]
    ensures r.state.cache == c.cache && r.state.weakrefs == c.weakrefs
    ensures LruOrder(r.state) == Without(LruOrder(c), key) + [key]
    ensures r.state.hits == c.hits + 1
    ensures r.state == c.(hits := r.state.hits, queue := r.state.queue, refcount := r.state.refcount)
  {
    var counted := c.(hits := c.hits + 1);
    RefKeyRestoresValid(counted, key);
    Hit(RefKey(counted, key), c.cache[key])
  }

  /**
   The second branch of `_get_hit`: a key evicted from the primary cache whose
   value is still alive is promoted back into it and referenced, without purging.
   */
  function SecondaryHit<K(==,!new), V>(c: Cache<K, V>, key: K): (r: Hit<K, V>)
    requires Valid(c) && key !in c.cache && key in c.weakrefs
    ensures Valid(r.state)
    ensures r.value == c.weakrefs[key]
    ensures r.state.cache == c.cache[key := c.weakrefs[key]] && r.state.weakrefs == c.weakrefs
    ensures LruOrder(r.state) == LruOrder(c) + [key]
    ensures r.state.refhits == c.refhits + 1
    ensures r.state == c.(refhits := r.state.refhits, cache := r.state.cache, queue := r.state.queue, refcount := r.state.refcount)
  {
    var v := c.weakrefs[key];
    var promoted := c.(refhits := c.refhits + 1, cache := c.cache[key := v]);
    RefKeyRestoresValid(promoted, key);
    LruOrderIsCacheKeys(c);
    Hit(RefKey(promoted, key), v)
  }

  /** `_get_hit`: answer from the primary cache (a hit) or the secondary table (a ref-hit), or report no hit. */
  function GetHit<K(==,!new), V>(c: Cache<K, V>, key: K): (r: Option<Hit<K, V>>)
    requires Valid(c)
    ensures r.None? <==> key !in c.cache && key !in c.weakrefs
    ensures r.Some? ==> Valid(r.value.state) && r.value.value == c.weakrefs[key]
    ensures r.Some? ==> r.value.state.cache == c.cache[key := c.weakrefs[key]]
    ensures r.Some? ==> r.value.state.weakrefs == c.weakrefs
    ensures r.Some? ==> LruOrder(r.value.state) == Without(LruOrder(c), key) + [key]
    ensures r.Some? ==> r.value.state.maxSize == c.maxSize && r.value.state.misses == c.misses
    ensures r.Some? && key in c.cache ==> r.value.state.hits == c.hits + 1 && r.value.state.refhits == c.refhits
    ensures r.Some? && key !in c.cache ==> r.value.state.refhits == c.refhits + 1 && r.value.state.hits == c.hits
  {
    if key in c.cache then
      var h := PrimaryHit(c, key);
      assert c.cache[key := c.weakrefs[key]] == c.cache;
      Some(h)
    else if key in c.weakrefs then
      LruOrderIsCacheKeys(c);
      Some(SecondaryHit(c, key))
    else
      None
  }

  /** Below the compaction threshold, a hit or ref-hit appends exactly one reference to the queue. */
  lemma HitAppendsReference<K(!new), V>(c: Cache<K, V>, key: K)
    requires Valid(c) && (key in c.cache || key in c.weakrefs) && |c.queue| < c.maxQueue
    ensures GetHit(c, key).Some?
    ensures GetHit(c, key).value.state.queue == c.queue + [key]
    ensures GetHit(c, key).value.state.refcount == c.refcount[key := RefCount(c.refcount, key) + 1]
  {
  }

  /** Whether a miss-function outcome is a value that gets cached. */
  predicate Caches<V>(f: Fetch<V>)
  {
    f.Fetched? && f.value.Some?
  }

  /**
   `r` is `c` after caching `v` under the new key `key`: the value is in both
   tables, the key was referenced once, and the purge evicted the oldest keys
   of the LRU order extended by `key` until the bound held.
   */
  ghost predicate Stored<K(!new), V>(c: Cache<K, V>, key: K, v: V, r: Cache<K, V>)
  {
    && Bounded(r)
    && PrefixEvicted(LruOrder(c) + [key], c.cache[key := v], LruOrder(r), r.cache, c.maxSize)
    && r.weakrefs == c.weakrefs[key := v]
    && (key in r.cache ==> RefCount(r.refcount, key) == 1)
  }

  /** Referencing a key with no reference yet leaves it with exactly one, compacted or not. */
  lemma RefKeyOnce<K(!new), V>(c: Cache<K, V>, key: K)
    requires Counted(c.queue, c.refcount) && key !in c.queue
    ensures RefCount(RefKey(c, key).refcount, key) == 1
  {
    var r := RefKey(c, key);
    OccurrencesCount(r.queue, key);
    if |c.queue| < c.maxQueue {
      assert multiset(r.queue) == multiset(c.queue) + multiset{key};
    } else {
      assert key in Elements(r.queue);
      NoDupOccursOnce(r.queue, key);
    }
  }

  /** `s` is what is left of `q` after popping some references off its front. */
  ghost predicate SuffixOf<K>(s: seq<K>, q: seq<K>)
  {
    |s| <= |q| && s == q[|q| - |s|..]
  }

  /** A popped reference is never put back: the inner purge loop leaves a suffix of the queue. */
  lemma {:induction false} PopLeavesSuffix<K(!new)>(queue: seq<K>, refcount: map<K, nat>)
    requires queue != [] && Counted(queue, refcount)
    ensures SuffixOf(PopUntilUnreferenced(queue, refcount).queue, queue)
    decreases |queue|
  {
    var k := queue[0];
    HeadCounted(queue, refcount);
    if refcount[k] - 1 != 0 {
      PopReferenced(queue, refcount);
      PopLeavesSuffix(queue[1..], refcount[k := refcount[k] - 1]);
    }
  }

  /** `_purge` only pops references off the front of the queue. */
  lemma {:induction false} PurgeLeavesSuffix<K(!new), V>(c: Cache<K, V>)
    requires Inv(c)
    ensures SuffixOf(Purge(c).queue, c.queue)
    decreases |c.cache|
  {
    if |c.cache| > c.maxSize {
      LruOrderIsCacheKeys(c);
      PopLeavesSuffix(c.queue, c.refcount);
      var next := EvictOne(c);
      assert next.queue == PopUntilUnreferenced(c.queue, c.refcount).queue;
      PurgeLeavesSuffix(next);
      assert Purge(c) == Purge(next);
      SuffixTransitive(Purge(next).queue, next.queue, c.queue);
    }
  }

  /** A suffix of a suffix is a suffix. */
  lemma SuffixTransitive<K>(s: seq<K>, t: seq<K>, q: seq<K>)
    requires SuffixOf(s, t) && SuffixOf(t, q)
    ensures SuffixOf(s, q)
  {
    assert q[|q| - |t|..][|t| - |s|..] == q[|q| - |s|..];
  }

  /** A suffix holds no more references to a key than the whole queue. */
  lemma SuffixCount<K>(s: seq<K>, q: seq<K>, k: K)
    requires SuffixOf(s, q)
    ensures multiset(s)[k] <= multiset(q)[k]
  {
    assert q == q[..|q| - |s|] + s;
  }

  /** A key referenced once that survives the purge is still referenced once. */
  lemma PurgeKeepsSingleReference<K(!new), V>(c: Cache<K, V>, key: K)
    requires Inv(c) && RefCount(c.refcount, key) == 1
    ensures key in Purge(c).cache ==> RefCount(Purge(c).refcount, key) == 1
  {
    var r := Purge(c);
    PurgeLeavesSuffix(c);
    SuffixCount(r.queue, c.queue, key);
    OccurrencesCount(c.queue, key);
    OccurrencesCount(r.queue, key);
    if key in r.cache {
      assert key in Elements(r.queue);
    }
  }

  /** A fetched value for a key not in the primary cache goes into both tables and the key is referenced. */
  function Insert<K(==,!new), V>(c: Cache<K, V>, key: K, value: V): (r: Cache<K, V>)
    requires Valid(c) && key !in c.cache
    ensures Valid(r)
    ensures r.cache == c.cache[key := value] && r.weakrefs == c.weakrefs[key := value]
    ensures |r.cache| == |c.cache| + 1
    ensures LruOrder(r) == LruOrder(c) + [key]
    ensures RefCount(r.refcount, key) == 1
    ensures r.maxSize == c.maxSize
    ensures r == c.(queue := r.queue, cache := r.cache, weakrefs := r.weakrefs, refcount := r.refcount)
  {
    LruOrderIsCacheKeys(c);
    var stored := c.(cache := c.cache[key := value], weakrefs := c.weakrefs[key := value]);
    MirroredStore(c.cache, c.weakrefs, key, value);
    RefKeyRestoresValid(stored, key);
    RefKeyOnce(stored, key);
    var r := RefKey(stored, key);
    assert LruOrder(r) == LruOrder(c) + [key] by {
      assert stored.queue == c.queue;
    }
    r
  }

  /**
   The caching branch of a miss in `get`: the fetched value goes into both
   tables, the key is referenced and the primary cache purged to its bound,
   which evicts the oldest keys of the LRU order extended by the new key.
   */
  function StoreFetched<K(==,!new), V>(c: Cache<K, V>, key: K, value: V): (r: Cache<K, V>)
    requires Valid(c) && key !in c.cache
    ensures Valid(r) && Stored(c, key, value, r)
    ensures |r.cache| == if |c.cache| < c.maxSize then |c.cache| + 1 else c.maxSize
    ensures Requests(r) == Requests(c)
    ensures r == c.(queue := r.queue, cache := r.cache, weakrefs := r.weakrefs, refcount := r.refcount)
  {
    var inserted := Insert(c, key, value);
    PurgedInsert(c, key, value, inserted);
    Purge(inserted)
  }

  /** The purge after an insertion is a purge of the LRU order extended by the new key. */
  lemma PurgedInsert<K(!new), V>(c: Cache<K, V>, key: K, value: V, inserted: Cache<K, V>)
    requires Valid(inserted) && RefCount(inserted.refcount, key) == 1
    requires inserted.cache == c.cache[key := value] && inserted.weakrefs == c.weakrefs[key := value]
    requires LruOrder(inserted) == LruOrder(c) + [key] && inserted.maxSize == c.maxSize
    ensures Valid(Purge(inserted)) && Stored(c, key, value, Purge(inserted))
  {
    var r := Purge(inserted);
    MirroredRemove(inserted.cache, inserted.weakrefs, Elements(LruOrder(inserted)[..|inserted.cache| - |r.cache|]));
    PurgeKeepsSingleReference(inserted, key);
  }

  /**
   What the outcome of a miss does to the cache, in `get` and in the
   coalescing cache's completion handlers alike: a value is stored, referenced
   and purged; `None` and failures leave the cache alone.
   */
  function Settle<K(==,!new), V>(c: Cache<K, V>, key: K, outcome: Fetch<V>): (r: Cache<K, V>)
    requires Valid(c) && key !in c.cache
    ensures Valid(r)
    ensures r.cache.Keys <= c.cache.Keys + {key}
    ensures r.weakrefs.Keys <= c.weakrefs.Keys + {key}
    ensures !Caches(outcome) ==> r == c
    ensures Caches(outcome) ==> Stored(c, key, outcome.value.value, r)
    ensures r == c.(queue := r.queue, cache := r.cache, weakrefs := r.weakrefs, refcount := r.refcount)
  {
    if Caches(outcome) then
      StoreFetched(c, key, outcome.value.value)
    else c
  }

  /** Dropping entries from the primary cache keeps it mirrored. */
  lemma MirroredRemove<K(!new), V>(cache: map<K, V>, weakrefs: map<K, V>, gone: set<K>)
    requires Mirrored(cache, weakrefs)
    ensures Mirrored(cache - gone, weakrefs)
  {
  }

  /** Storing the same value in both tables keeps the primary cache mirrored. */
  lemma MirroredStore<K(!new), V>(cache: map<K, V>, weakrefs: map<K, V>, key: K, value: V)
    ensures Mirrored(cache, weakrefs) ==> Mirrored(cache[key := value], weakrefs[key := value])
  {
  }

  /**
   `get`: a hit or ref-hit is answered without the miss function; a miss
   counts, calls `missFn` and returns its outcome unchanged. A failure
   propagates to the caller and a `None` is not cached; a value is stored in
   both tables, referenced once and the cache purged back to its bound.
   */
  function Get<K(==,!new), V>(c: Cache<K, V>, key: K, missFn: K -> Fetch<V>): (r: Lookup<K, V>)
    requires Valid(c)
    ensures Valid(r.state)
    ensures r.state.maxSize == c.maxSize
    ensures Requests(r.state) == Requests(c) + 1
    ensures key in c.cache || key in c.weakrefs ==>
      r.answer == Fetched(Some(c.weakrefs[key])) && r.state.misses == c.misses
    ensures key in c.cache || key in c.weakrefs ==>
      GetHit(c, key).Some? && r.state == GetHit(c, key).value.state
    ensures key !in c.cache && key !in c.weakrefs ==>
      r.answer == missFn(key) && r.state.misses == c.misses + 1
    ensures key !in c.cache && key !in c.weakrefs && !Caches(missFn(key)) ==>
      r.state == c.(misses := c.misses + 1)
    ensures key !in c.cache && key !in c.weakrefs && Caches(missFn(key)) ==>
      && Stored(c, key, missFn(key).value.value, r.state)
      && r.state == c.(misses := c.misses + 1, queue := r.state.queue, cache := r.state.cache,
                       weakrefs := r.state.weakrefs, refcount := r.state.refcount)
  {
    match GetHit(c, key)
    case Some(h) => Lookup(h.state, Fetched(Some(h.value)))
    case None =>
      var counted := c.(misses := c.misses + 1);
      var outcome := missFn(key);
      assert LruOrder(counted) == LruOrder(c);
      Lookup(Settle(counted, key, outcome), outcome)
  }

  /** `put`: overwrite an entry that exists; never insert a key, never touch the queue. */
  function Put<K(==,!new), V>(c: Cache<K, V>, key: K, value: V): (r: Cache<K, V>)
    ensures Valid(c) ==> Valid(r) && r.weakrefs.Keys == c.weakrefs.Keys
    ensures r.cache.Keys == c.cache.Keys
    ensures key in c.cache ==> r.cache == c.cache[key := value] && r.weakrefs == c.weakrefs[key := value]
    ensures key !in c.cache && key in c.weakrefs ==> r.cache == c.cache && r.weakrefs == c.weakrefs[key := value]
    ensures key !in c.cache && key !in c.weakrefs ==> r == c
    ensures r == c.(cache := r.cache, weakrefs := r.weakrefs)
  {
    if key in c.cache then
      MirroredStore(c.cache, c.weakrefs, key, value);
      assert c.cache[key := value].Keys == c.cache.Keys;
      c.(cache := c.cache[key := value], weakrefs := c.weakrefs[key := value])
    else if key in c.weakrefs then
      MirroredSecondaryStore(c.cache, c.weakrefs, key, value);
      c.(weakrefs := c.weakrefs[key := value])
    else
      c
  }

  /** Overwriting a secondary entry of a key outside the primary cache keeps the primary cache mirrored. */
  lemma MirroredSecondaryStore<K(!new), V>(cache: map<K, V>, weakrefs: map<K, V>, key: K, value: V)
    requires key !in cache
    ensures Mirrored(cache, weakrefs) ==> Mirrored(cache, weakrefs[key := value])
  {
  }

  /** `set_max_size`: nothing when the bound is unchanged; otherwise re-bound and purge at once. */
  function SetMaxSize<K(==,!new), V>(c: Cache<K, V>, maxSize: nat): (r: Cache<K, V>)
    requires Valid(c)
    ensures Valid(r)
    ensures maxSize == c.maxSize ==> r == c
    ensures maxSize != c.maxSize ==>
      && r.maxSize == maxSize
      && Bounded(r)
      && PrefixEvicted(LruOrder(c), c.cache, LruOrder(r), r.cache, maxSize)
      && r.weakrefs == c.weakrefs
    ensures r.cache.Keys <= c.cache.Keys
    ensures r == c.(maxSize := r.maxSize, maxQueue := r.maxQueue, queue := r.queue, cache := r.cache, refcount := r.refcount)
  {
    if c.maxSize == maxSize then c
    else
      var rebounded := c.(maxSize := maxSize, maxQueue := maxSize * QueueSizeFactor);
      assert LruOrder(rebounded) == LruOrder(c);
      var r := Purge(rebounded);
      MirroredRemove(c.cache, c.weakrefs, Elements(LruOrder(c)[..|c.cache| - |r.cache|]));
      PrefixEvictedKeys(LruOrder(c), c.cache, LruOrder(r), r.cache, maxSize);
      r
  }

  /**
   The garbage collector dropping a secondary entry. Only keys that are not in
   the primary cache can go: the primary cache holds their value strongly.
   */
  function Collect<K(==,!new), V>(c: Cache<K, V>, key: K): (r: Cache<K, V>)
    requires key in c.weakrefs && key !in c.cache
    ensures Valid(c) ==> Valid(r)
    ensures key !in r.weakrefs && r.weakrefs.Keys == c.weakrefs.Keys - {key}
    ensures r == c.(weakrefs := r.weakrefs)
  {
    c.(weakrefs := c.weakrefs - {key})
  }

  /** A hit or ref-hit does not depend on the miss function: it is never called. */
  lemma HitIgnoresMissFn<K(!new), V>(c: Cache<K, V>, key: K, f: K -> Fetch<V>, g: K -> Fetch<V>)
    requires Valid(c) && (key in c.cache || key in c.weakrefs)
    ensures Get(c, key, f) == Get(c, key, g)
  {
  }

  /** A ref-hit promotes its key without purging, so the primary cache grows by one. */
  lemma RefHitGrowsCache<K(!new), V>(c: Cache<K, V>, key: K, f: K -> Fetch<V>)
    requires Valid(c) && key !in c.cache && key in c.weakrefs
    ensures |Get(c, key, f).state.cache| == |c.cache| + 1
    ensures |c.cache| == c.maxSize ==> !Bounded(Get(c, key, f).state)
  {
  }

  /**
   With a full cache, a miss that fetches a value for a new key evicts exactly
   the least recently used key and keeps the cache at its bound.
   */
  lemma MissEvictsLeastRecent<K(!new), V>(c: Cache<K, V>, key: K, f: K -> Fetch<V>)
    requires Valid(c) && 1 <= c.maxSize == |c.cache|
    requires key !in c.cache && key !in c.weakrefs && Caches(f(key))
    ensures LruOrder(c) != []
    ensures Get(c, key, f).state.cache == c.cache[key := f(key).value.value] - {LruOrder(c)[0]}
    ensures LruOrder(Get(c, key, f).state) == LruOrder(c)[1..] + [key]
  {
    LruOrderIsCacheKeys(c);
    var r := Get(c, key, f).state;
    EvictOldest(LruOrder(c), key, c.cache[key := f(key).value.value], LruOrder(r), r.cache, c.maxSize);
  }

  /** Purging a full order extended by one key evicts exactly the oldest key. */
  lemma EvictOldest<K, V>(order: seq<K>, key: K, m: map<K, V>, rest: seq<K>, mRest: map<K, V>, maxSize: nat)
    requires 1 <= maxSize == |order|
    requires PrefixEvicted(order + [key], m, rest, mRest, maxSize)
    ensures mRest == m - {order[0]}
    ensures rest == order[1..] + [key]
  {
    assert (order + [key])[..1] == [order[0]];
    assert Elements([order[0]]) == {order[0]};
  }

  /** After `put` of an existing key, `get` returns the new value without a miss. */
  lemma PutThenGet<K(!new), V>(c: Cache<K, V>, key: K, value: V, f: K -> Fetch<V>)
    requires Valid(c) && (key in c.cache || key in c.weakrefs)
    ensures Get(Put(c, key, value), key, f).answer == Fetched(Some(value))
    ensures Get(Put(c, key, value), key, f).state.misses == c.misses
  {
  }

  /** `put` of an unknown key is forgotten: the next `get` is a miss answered by the miss function. */
  lemma PutAbsentThenGet<K(!new), V>(c: Cache<K, V>, key: K, value: V, f: K -> Fetch<V>)
    requires Valid(c) && key !in c.cache && key !in c.weakrefs
    ensures Get(Put(c, key, value), key, f).answer == f(key)
  {
  }

  /** Once the collector dropped a key's secondary entry, `get` is a miss again. */
  lemma CollectedKeyMisses<K(!new), V>(c: Cache<K, V>, key: K, f: K -> Fetch<V>)
    requires Valid(c) && key in c.weakrefs && key !in c.cache
    ensures Get(Collect(c, key), key, f).answer == f(key)
    ensures Get(Collect(c, key), key, f).state.misses == c.misses + 1
  {
  }
}
