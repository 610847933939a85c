/**
 The request-coalescing cache (`AsyncLRUCache`).

 It wraps the synchronous cache state and adds `concurrent`: for every key
 whose miss function is still running, the callers waiting for it, in the
 order they asked. A caller is named by a `Waiter` id standing for the
 Deferred it was handed. The fetch itself is asynchronous, so a `get` that
 misses only starts it; the outcome arrives later as a separate `Complete`
 event, which fires every waiter of the key with that one outcome.
 */
module AsyncLru {
  import opened Wrappers
  import opened Recency
  import opened Lru

  /** The identity of the Deferred handed to one caller of `get`. */
  type Waiter = nat

  datatype AsyncCache<K, V> = AsyncCache(lru: Cache<K, V>, concurrent: map<K, seq<Waiter>>)

  /**
   What `get` hands back: a Deferred that has already fired with a cached
   value, one that waits on a fetch already in flight, or one that waits on
   the fetch this call started.
   */
  datatype Reply<V> = Answered(value: V) | Joined | Fetching

  datatype Started<K, V> = Started(state: AsyncCache<K, V>, reply: Reply<V>)

  /** One Deferred firing: `callback` with a value or `None`, or `errback` on a failure. */
  datatype Delivery<V> = Delivery(waiter: Waiter, outcome: Fetch<V>)

  datatype Completed<K, V> = Completed(state: AsyncCache<K, V>, deliveries: seq<Delivery<V>>)

  /** Every key in flight has at least one waiter: the caller whose miss started the fetch. */
  ghost predicate NonEmptyLists<K>(concurrent: map<K, seq<Waiter>>)
  {
    forall k :: k in concurrent ==> concurrent[k] != []
  }

  /**
   The synchronous invariant, and no key is both in flight and known to the
   cache: a fetch starts only on a full miss, and nothing inserts the key
   before the fetch completes.
   */
  ghost predicate AsyncValid<K(!new), V>(a: AsyncCache<K, V>)
  {
    && Valid(a.lru)
    && NonEmptyLists(a.concurrent)
    && a.concurrent.Keys !! a.lru.cache.Keys
    && a.concurrent.Keys !! a.lru.weakrefs.Keys
  }

  /** A fresh cache with no fetch in flight (`__init__`). */
  function AsyncNew<K(==,!new), V>(maxSize: nat): (a: AsyncCache<K, V>)
    ensures AsyncValid(a)
    ensures a.lru.maxSize == maxSize && a.lru.cache == map[] && a.concurrent == map[]
    ensures a.lru == New(maxSize)
  {
    AsyncCache(New(maxSize), map[])
  }

  /**
   `get` of the coalescing cache. A hit or ref-hit is answered at once as in
   the synchronous cache. Otherwise, when a fetch for the key is in flight
   the caller joins its waiter list and the request counts as a hit; only a
   true miss counts as a miss, creates the list and starts the one fetch.
   */
  function AsyncGet<K(==,!new), V>(a: AsyncCache<K, V>, key: K, waiter: Waiter): (r: Started<K, V>)
    requires AsyncValid(a)
    ensures AsyncValid(r.state)
    ensures Requests(r.state.lru) == Requests(a.lru) + 1
    ensures key in a.lru.cache || key in a.lru.weakrefs ==>
      && r.reply == Answered(a.lru.weakrefs[key])
      && Some(Hit(r.state.lru, r.reply.value)) == GetHit(a.lru, key)
      && r.state.concurrent == a.concurrent
    ensures key !in a.lru.cache && key !in a.lru.weakrefs && key in a.concurrent ==>
      && r.reply == Joined
      && r.state.lru == a.lru.(hits := a.lru.hits + 1)
      && r.state.concurrent == a.concurrent[key := a.concurrent[key] + [waiter]]
    ensures key !in a.lru.cache && key !in a.lru.weakrefs && key !in a.concurrent ==>
      && r.reply == Fetching
      && r.state.lru == a.lru.(misses := a.lru.misses + 1)
      && r.state.concurrent == a.concurrent[key := [waiter]]
  {
    match GetHit(a.lru, key)
    case Some(h) =>
      Started(AsyncCache(h.state, a.concurrent), Answered(h.value))
    case None =>
      // a waiter list is looked up with Python truthiness: absent and empty both mean "no fetch"
      if key in a.concurrent && a.concurrent[key] != [] then
        Started(AsyncCache(a.lru.(hits := a.lru.hits + 1), a.concurrent[key := a.concurrent[key] + [waiter]]), Joined)
      else
        // the `assert` in `AsyncLRUCache.get` that the key is not in flight; the invariant makes it hold
        assert key !in a.concurrent;
        Started(AsyncCache(a.lru.(misses := a.lru.misses + 1), a.concurrent[key := [waiter]]), Fetching)
  }

  /** The `for d in dlist` loop of both closures: fire each waiter, in order, with the same outcome. */
  function Fire<V>(waiters: seq<Waiter>, outcome: Fetch<V>): (r: seq<Delivery<V>>)
    ensures |r| == |waiters|
    ensures forall i :: 0 <= i < |r| ==> r[i].waiter == waiters[i] && r[i].outcome == outcome
  {
    if waiters == [] then []
    else [Delivery(waiters[0], outcome)] + Fire(waiters[1..], outcome)
  }

  /**
   The end of the fetch for `key`: `handle_result` on a success, or
   `handle_failure` on a failure. A value is stored in both tables,
   referenced once for all waiters together and the cache purged; `None` or a
   failure caches nothing. Either way the key leaves `concurrent` and each of
   its waiters is fired once with the outcome.
   */
  function Complete<K(==,!new), V>(a: AsyncCache<K, V>, key: K, outcome: Fetch<V>): (r: Completed<K, V>)
    requires AsyncValid(a) && key in a.concurrent
    ensures AsyncValid(r.state)
    ensures r.state.concurrent == a.concurrent - {key}
    ensures |r.deliveries| == |a.concurrent[key]|
    ensures forall i :: 0 <= i < |r.deliveries| ==> r.deliveries[i] == Delivery(a.concurrent[key][i], outcome)
    ensures !Caches(outcome) ==> r.state.lru == a.lru
    ensures Caches(outcome) ==> Stored(a.lru, key, outcome.value.value, r.state.lru)
    ensures r.state.lru == a.lru.(queue := r.state.lru.queue, cache := r.state.lru.cache,
                                  weakrefs := r.state.lru.weakrefs, refcount := r.state.lru.refcount)
  {
    var waiters := a.concurrent[key];
    var rest := a.concurrent - {key};
    NonEmptyListsRemove(a.concurrent, key);
    var lru := Settle(a.lru, key, outcome);
    Completed(AsyncCache(lru, rest), Fire(waiters, outcome))
  }

  /** Dropping a key keeps every remaining waiter list non-empty. */
  lemma NonEmptyListsRemove<K>(concurrent: map<K, seq<Waiter>>, key: K)
    requires NonEmptyLists(concurrent)
    ensures NonEmptyLists(concurrent - {key})
  {
  }

  /** The waiter of each delivery, in order. */
  function Waiters<V>(ds: seq<Delivery<V>>): (r: seq<Waiter>)
    ensures |r| == |ds|
    ensures forall i :: 0 <= i < |r| ==> r[i] == ds[i].waiter
  {
    if ds == [] then [] else [ds[0].waiter] + Waiters(ds[1..])
  }

  /** The deliveries of a completion go to exactly the waiters of the key, in order. */
  lemma CompleteWaiters<K(!new), V>(a: AsyncCache<K, V>, key: K, outcome: Fetch<V>)
    requires AsyncValid(a) && key in a.concurrent
    ensures Waiters(Complete(a, key, outcome).deliveries) == a.concurrent[key]
  {
  }

  // ---------------------------------------------------------------------------
  // The cache together with its callers: the fetches in flight and the answers given.

  /** Everything that can happen to the cache, in any order. */
  datatype Event<K, V> =
    | Request(key: K)                       // a caller invokes `get`
    | Resolve(key: K, outcome: Fetch<V>)    // the Deferred of a running fetch fires
    | Store(key: K, value: V)               // a caller invokes `put`
    | Resize(maxSize: nat)                  // a caller invokes `set_max_size`
    | Drop(key: K)                          // the collector drops a secondary entry

  /**
   The coalescing cache seen from outside: `fetching` counts the miss-function
   calls still running per key, `next` is the id the next caller's Deferred
   gets, and `delivered` is what each fired Deferred was fired with.
   */
  datatype System<K, V> = System(
    cache: AsyncCache<K, V>,
    fetching: multiset<K>,
    next: Waiter,
    delivered: map<Waiter, Fetch<V>>)

  /** The waiters still waiting for some fetch. */
  ghost function Pending<K>(concurrent: map<K, seq<Waiter>>): set<Waiter>
  {
    set k, w | k in concurrent && w in concurrent[k] :: w
  }

  /** No waiter is registered twice, under one key or under two. */
  ghost predicate Separate<K>(concurrent: map<K, seq<Waiter>>)
  {
    && (forall k :: k in concurrent ==> NoDup(concurrent[k]))
    && (forall k1, k2 :: k1 in concurrent && k2 in concurrent && k1 != k2 ==>
          Elements(concurrent[k1]) !! Elements(concurrent[k2]))
  }

  /** Every caller issued so far is either still waiting, once, or has been answered, not both. */
  ghost predicate Accounted<K, V>(concurrent: map<K, seq<Waiter>>, delivered: map<Waiter, Fetch<V>>, next: Waiter)
  {
    && Separate(concurrent)
    && Pending(concurrent) !! delivered.Keys
    && (forall w: Waiter :: w in Pending(concurrent) || w in delivered <==> w < next)
  }

  /** The invariant of the whole system: one running fetch per key in flight, and every caller accounted for. */
  ghost predicate SysValid<K(!new), V>(s: System<K, V>)
  {
    && AsyncValid(s.cache)
    && s.fetching == multiset(s.cache.concurrent.Keys)
    && Accounted(s.cache.concurrent, s.delivered, s.next)
  }

  /** A fresh cache that no one has called yet. */
  function Boot<K(==,!new), V>(maxSize: nat): (s: System<K, V>)
    ensures SysValid(s)
    ensures s.cache.lru.maxSize == maxSize && s.next == 0 && s.delivered == map[]
    ensures s.cache == AsyncNew(maxSize) && s.fetching == multiset{}
  {
    var a: AsyncCache<K, V> := AsyncNew(maxSize);
    var delivered: map<Waiter, Fetch<V>> := map[];
    assert multiset(a.concurrent.Keys) == multiset{};
    NothingAccounted(a.concurrent, delivered);
    System(a, multiset{}, 0, delivered)
  }

  /** Registering a new waiter under `key` adds exactly that waiter to the pending ones. */
  lemma PendingRegister<K>(concurrent: map<K, seq<Waiter>>, key: K, list: seq<Waiter>, w: Waiter)
    requires list == (if key in concurrent then concurrent[key] else []) + [w]
    ensures Pending(concurrent[key := list]) == Pending(concurrent) + {w}
  {
    var after := concurrent[key := list];
    forall x
      ensures x in Pending(after) <==> x in Pending(concurrent) + {w}
    {
      if x in Pending(after) {
        var k :| k in after && x in after[k];
        if k != key || x != w {
          assert x in concurrent[k];
        }
      }
      if x in Pending(concurrent) {
        var k :| k in concurrent && x in concurrent[k];
        assert x in after[k];
      }
      if x == w {
        assert w in after[key];
      }
    }
  }

  /** With no fetch in flight no one is waiting. */
  lemma NothingPending<K>(concurrent: map<K, seq<Waiter>>)
    requires concurrent == map[]
    ensures Pending(concurrent) == {}
  {
  }

  /** Before the first call there is nothing to account for. */
  lemma NothingAccounted<K, V>(concurrent: map<K, seq<Waiter>>, delivered: map<Waiter, Fetch<V>>)
    requires concurrent == map[] && delivered == map[]
    ensures Accounted(concurrent, delivered, 0)
  {
    NothingPending(concurrent);
    forall w: Waiter
      ensures w in Pending(concurrent) || w in delivered <==> w < 0
    {
      assert w !in delivered.Keys;
    }
  }

  /** A waiter in some list is pending. */
  lemma InPending<K>(concurrent: map<K, seq<Waiter>>, k: K, w: Waiter)
    requires k in concurrent && w in concurrent[k]
    ensures w in Pending(concurrent)
  {
  }

  /** A waiter id that is in no list can be appended to any list and keeps all waiters distinct. */
  lemma SeparateRegister<K>(concurrent: map<K, seq<Waiter>>, key: K, list: seq<Waiter>, w: Waiter)
    requires Separate(concurrent) && w !in Pending(concurrent)
    requires list == (if key in concurrent then concurrent[key] else []) + [w]
    ensures Separate(concurrent[key := list])
  {
    var prior := if key in concurrent then concurrent[key] else [];
    forall x | x in prior
      ensures x != w
    {
      InPending(concurrent, key, x);
    }
    NoDupSnoc(prior, w);
    ElementsAppend(prior, w);
    var after := concurrent[key := list];
    forall k1, k2 | k1 in after && k2 in after && k1 != k2
      ensures Elements(after[k1]) !! Elements(after[k2])
    {
      if k1 == key || k2 == key {
        var other := if k1 == key then k2 else k1;
        forall x | x in concurrent[other]
          ensures x != w && x !in prior
        {
          InPending(concurrent, other, x);
          if key in concurrent {
            assert x in Elements(concurrent[other]);
          }
        }
      }
    }
  }

  /** The effect on the bookkeeping of handing the next id to a caller who waits for a fetch. */
  lemma AccountedRegister<K, V>(concurrent: map<K, seq<Waiter>>, delivered: map<Waiter, Fetch<V>>, next: Waiter,
                                key: K, list: seq<Waiter>)
    requires Accounted(concurrent, delivered, next)
    requires list == (if key in concurrent then concurrent[key] else []) + [next]
    ensures Accounted(concurrent[key := list], delivered, next + 1)
  {
    PendingRegister(concurrent, key, list, next);
    SeparateRegister(concurrent, key, list, next);
  }

  /** The effect on the bookkeeping of answering the next caller at once. */
  lemma AccountedAnswer<K, V>(concurrent: map<K, seq<Waiter>>, delivered: map<Waiter, Fetch<V>>, next: Waiter, v: Fetch<V>)
    requires Accounted(concurrent, delivered, next)
    ensures Accounted(concurrent, delivered[next := v], next + 1)
  {
    var answered := delivered[next := v];
    forall w: Waiter
      ensures w in Pending(concurrent) || w in answered <==> w < next + 1
    {
      assert w in answered <==> w in delivered || w == next;
    }
  }

  /** Dropping a key in flight removes exactly its waiters from the pending ones. */
  lemma PendingRemove<K>(concurrent: map<K, seq<Waiter>>, key: K)
    requires Separate(concurrent) && key in concurrent
    ensures Pending(concurrent - {key}) == Pending(concurrent) - Elements(concurrent[key])
  {
    var after := concurrent - {key};
    forall x
      ensures x in Pending(after) <==> x in Pending(concurrent) - Elements(concurrent[key])
    {
      if x in Pending(after) {
        var k :| k in after && x in after[k];
        InPending(concurrent, k, x);
        assert x in Elements(concurrent[k]);
      }
      if x in Pending(concurrent) && x !in concurrent[key] {
        var k :| k in concurrent && x in concurrent[k];
        InPending(after, k, x);
      }
    }
  }

  /** The effect on the bookkeeping of answering every waiter of a completed fetch. */
  lemma AccountedResolve<K, V>(concurrent: map<K, seq<Waiter>>, delivered: map<Waiter, Fetch<V>>, next: Waiter,
                               key: K, answered: map<Waiter, Fetch<V>>)
    requires Accounted(concurrent, delivered, next) && key in concurrent
    requires answered.Keys == delivered.Keys + Elements(concurrent[key])
    ensures Accounted(concurrent - {key}, answered, next)
    ensures forall w :: w in concurrent[key] ==> w !in delivered
  {
    PendingRemove(concurrent, key);
    forall w | w in concurrent[key]
      ensures w !in delivered && w < next
    {
      InPending(concurrent, key, w);
    }
  }

  /** Starting or finishing a fetch adds or removes one copy of its key. */
  lemma FetchingKeys<K>(concurrent: map<K, seq<Waiter>>, key: K, list: seq<Waiter>)
    ensures key in concurrent ==> multiset((concurrent - {key}).Keys) == multiset(concurrent.Keys) - multiset{key}
    ensures key !in concurrent ==> multiset(concurrent[key := list].Keys) == multiset(concurrent.Keys) + multiset{key}
    ensures key in concurrent ==> concurrent[key := list].Keys == concurrent.Keys
  {
    if key in concurrent {
      assert concurrent.Keys == (concurrent - {key}).Keys + {key};
    } else {
      assert concurrent[key := list].Keys == concurrent.Keys + {key};
    }
  }

  /**
   Fires the deliveries: each waiter's Deferred records its outcome. The
   waiters are distinct, as the accounting invariant guarantees.
   */
  function Record<V>(delivered: map<Waiter, Fetch<V>>, ds: seq<Delivery<V>>): (r: map<Waiter, Fetch<V>>)
    requires NoDup(Waiters(ds))
    ensures r.Keys == delivered.Keys + Elements(Waiters(ds))
    ensures forall d :: d in ds ==> d.waiter in r && r[d.waiter] == d.outcome
    ensures forall w :: w in delivered && w !in Waiters(ds) ==> r[w] == delivered[w]
    decreases |ds|
  {
    if ds == [] then delivered
    else
      var ws := Waiters(ds);
      assert ws[1..] == Waiters(ds[1..]);
      assert ws == [ds[0].waiter] + ws[1..];
      NoDupTail(ws);
      Record(delivered[ds[0].waiter := ds[0].outcome], ds[1..])
  }

  /** A Deferred fires once: an answer given is never taken back or changed. */
  ghost predicate AnswersStand<V>(before: map<Waiter, Fetch<V>>, after: map<Waiter, Fetch<V>>)
  {
    forall w :: w in before ==> w in after && after[w] == before[w]
  }

  /** Answering a caller who had no answer yet changes no earlier answer. */
  lemma NewAnswerStands<V>(delivered: map<Waiter, Fetch<V>>, w: Waiter, v: Fetch<V>)
    requires w !in delivered
    ensures AnswersStand(delivered, delivered[w := v])
  {
  }

  /** A caller invokes `get` and is given the next Deferred. */
  function RequestStep<K(==,!new), V>(s: System<K, V>, key: K): (r: System<K, V>)
    requires SysValid(s)
    ensures SysValid(r)
    ensures r.next == s.next + 1 && s.next !in s.delivered
    ensures AnswersStand(s.delivered, r.delivered)
    ensures key in s.cache.lru.cache || key in s.cache.lru.weakrefs ==>
      && r.delivered == s.delivered[s.next := Fetched(Some(s.cache.lru.weakrefs[key]))]
      && r.fetching == s.fetching
      && r.cache.concurrent == s.cache.concurrent
    ensures key !in s.cache.lru.cache && key !in s.cache.lru.weakrefs ==>
      && r.delivered == s.delivered
      && key in r.cache.concurrent && s.next in r.cache.concurrent[key]
      && r.cache.lru.cache == s.cache.lru.cache && r.cache.lru.weakrefs == s.cache.lru.weakrefs
    ensures key !in s.cache.lru.cache && key !in s.cache.lru.weakrefs && key in s.cache.concurrent ==>
      && r.fetching == s.fetching
      && r.cache.concurrent == s.cache.concurrent[key := s.cache.concurrent[key] + [s.next]]
    ensures key !in s.cache.lru.cache && key !in s.cache.lru.weakrefs && key !in s.cache.concurrent ==>
      && r.fetching == s.fetching + multiset{key}
      && r.cache.concurrent == s.cache.concurrent[key := [s.next]]
    ensures r.cache == AsyncGet(s.cache, key, s.next).state
  {
    var st := AsyncGet(s.cache, key, s.next);
    var conc := s.cache.concurrent;
    match st.reply
    case Answered(v) =>
      AccountedAnswer(conc, s.delivered, s.next, Fetched(Some(v)));
      NewAnswerStands(s.delivered, s.next, Fetched(Some(v)));
      System(st.state, s.fetching, s.next + 1, s.delivered[s.next := Fetched(Some(v))])
    case Joined =>
      AccountedRegister(conc, s.delivered, s.next, key, conc[key] + [s.next]);
      FetchingKeys(conc, key, conc[key] + [s.next]);
      System(st.state, s.fetching, s.next + 1, s.delivered)
    case Fetching =>
      AccountedRegister(conc, s.delivered, s.next, key, [s.next]);
      FetchingKeys(conc, key, [s.next]);
      System(st.state, s.fetching + multiset{key}, s.next + 1, s.delivered)
  }

  /**
   The running fetch for `key` fires: every caller waiting on it is answered
   with the outcome, none of them had been answered before, and earlier
   answers stand.
   */
  function ResolveStep<K(==,!new), V>(s: System<K, V>, key: K, outcome: Fetch<V>): (r: System<K, V>)
    requires SysValid(s) && s.fetching[key] > 0
    ensures SysValid(r)
    ensures key in s.cache.concurrent && r.cache.concurrent == s.cache.concurrent - {key}
    ensures r.fetching == s.fetching - multiset{key} && r.next == s.next
    ensures forall w :: w in s.cache.concurrent[key] ==>
      w !in s.delivered && w in r.delivered && r.delivered[w] == outcome
    ensures r.delivered.Keys == s.delivered.Keys + Elements(s.cache.concurrent[key])
    ensures AnswersStand(s.delivered, r.delivered)
    ensures !Caches(outcome) ==> r.cache.lru == s.cache.lru
    ensures Caches(outcome) ==> Stored(s.cache.lru, key, outcome.value.value, r.cache.lru)
    ensures r.cache == Complete(s.cache, key, outcome).state
  {
    var conc := s.cache.concurrent;
    var d := Complete(s.cache, key, outcome);
    CompleteWaiters(s.cache, key, outcome);
    var answered := Record(s.delivered, d.deliveries);
    AccountedResolve(conc, s.delivered, s.next, key, answered);
    FetchingKeys(conc, key, []);
    forall w | w in conc[key]
      ensures answered[w] == outcome
    {
      var i :| 0 <= i < |conc[key]| && conc[key][i] == w;
      assert d.deliveries[i].waiter == w && d.deliveries[i] in d.deliveries;
    }
    System(d.state, s.fetching - multiset{key}, s.next, answered)
  }

  /** A caller invokes `put`: it replaces a value the cache already knows and never adds a key. */
  function StoreStep<K(==,!new), V>(s: System<K, V>, key: K, value: V): (r: System<K, V>)
    requires SysValid(s)
    ensures SysValid(r)
    ensures r.fetching == s.fetching && r.next == s.next && r.delivered == s.delivered
    ensures AnswersStand(s.delivered, r.delivered)
    ensures r.cache.concurrent == s.cache.concurrent
    ensures r.cache.lru == Put(s.cache.lru, key, value)
  {
    System(AsyncCache(Put(s.cache.lru, key, value), s.cache.concurrent), s.fetching, s.next, s.delivered)
  }

  /** A caller invokes `set_max_size`: the fetches in flight and the callers are untouched. */
  function ResizeStep<K(==,!new), V>(s: System<K, V>, maxSize: nat): (r: System<K, V>)
    requires SysValid(s)
    ensures SysValid(r)
    ensures r.fetching == s.fetching && r.next == s.next && r.delivered == s.delivered
    ensures AnswersStand(s.delivered, r.delivered)
    ensures r.cache.concurrent == s.cache.concurrent
    ensures r.cache.lru == SetMaxSize(s.cache.lru, maxSize)
  {
    var lru := SetMaxSize(s.cache.lru, maxSize);
    System(AsyncCache(lru, s.cache.concurrent), s.fetching, s.next, s.delivered)
  }

  /** The collector drops a value that only the secondary table still held. */
  function DropStep<K(==,!new), V>(s: System<K, V>, key: K): (r: System<K, V>)
    requires SysValid(s) && key in s.cache.lru.weakrefs && key !in s.cache.lru.cache
    ensures SysValid(r)
    ensures r.fetching == s.fetching && r.next == s.next && r.delivered == s.delivered
    ensures AnswersStand(s.delivered, r.delivered)
    ensures r.cache.concurrent == s.cache.concurrent
    ensures r.cache.lru == Collect(s.cache.lru, key)
  {
    System(AsyncCache(Collect(s.cache.lru, key), s.cache.concurrent), s.fetching, s.next, s.delivered)
  }

  /**
   One event. A `Resolve` needs a fetch of its key running, and a `Drop`
   needs a value that only the secondary table holds; otherwise the event
   cannot happen and there is no next state.
   */
  function Step<K(==,!new), V>(s: System<K, V>, e: Event<K, V>): (r: Option<System<K, V>>)
    requires SysValid(s)
    ensures r.Some? ==> SysValid(r.value)
    ensures r.None? <==>
      || (e.Resolve? && s.fetching[e.key] == 0)
      || (e.Drop? && (e.key !in s.cache.lru.weakrefs || e.key in s.cache.lru.cache))
    ensures r.Some? ==> r.value.next == if e.Request? then s.next + 1 else s.next
    ensures r.Some? ==> AnswersStand(s.delivered, r.value.delivered)
  {
    match e
    case Request(key) => Some(RequestStep(s, key))
    case Resolve(key, outcome) =>
      if s.fetching[key] == 0 then None else Some(ResolveStep(s, key, outcome))
    case Store(key, value) => Some(StoreStep(s, key, value))
    case Resize(maxSize) => Some(ResizeStep(s, maxSize))
    case Drop(key) =>
      if key in s.cache.lru.weakrefs && key !in s.cache.lru.cache then Some(DropStep(s, key)) else None
  }

  /** A run of events, stopping at the first one that cannot happen. */
  function Run<K(==,!new), V>(s: System<K, V>, events: seq<Event<K, V>>): (r: Option<System<K, V>>)
    requires SysValid(s)
    ensures r.Some? ==> SysValid(r.value)
    ensures r.Some? ==> AnswersStand(s.delivered, r.value.delivered)
    ensures r.Some? ==> r.value.next >= s.next
    decreases |events|
  {
    if events == [] then Some(s)
    else
      match Step(s, events[0])
      case None => None
      case Some(t) => Run(t, events[1..])
  }

  /** In every reachable state at most one miss-function call runs per key, exactly when the key is in flight. */
  lemma OneFetchPerKey<K(!new), V>(s: System<K, V>, key: K)
    requires SysValid(s)
    ensures s.fetching[key] <= 1
    ensures s.fetching[key] == 1 <==> key in s.cache.concurrent
  {
  }

  /** Once no fetch is in flight, every caller so far has been answered. */
  lemma QuiescentAnswered<K(!new), V>(s: System<K, V>)
    requires SysValid(s) && s.cache.concurrent == map[]
    ensures forall w: Waiter :: w < s.next ==> w in s.delivered
  {
    NothingPending(s.cache.concurrent);
  }

  /** A caller is never answered twice: each answer is given to someone who was waiting, and stands. */
  lemma AnsweredOnce<K(!new), V>(s: System<K, V>, key: K, outcome: Fetch<V>, w: Waiter)
    requires SysValid(s) && s.fetching[key] > 0 && key in s.cache.concurrent && w in s.cache.concurrent[key]
    ensures w !in s.delivered
    ensures w in ResolveStep(s, key, outcome).delivered && ResolveStep(s, key, outcome).delivered[w] == outcome
    ensures w !in Pending(ResolveStep(s, key, outcome).cache.concurrent)
  {
    PendingRemove(s.cache.concurrent, key);
  }

  /**
   The cache's state after a fetch completes depends on the outcome alone,
   not on how many callers were waiting: the key is referenced once for all.
   */
  lemma CompletionIgnoresWaiters<K(!new), V>(a: AsyncCache<K, V>, b: AsyncCache<K, V>, key: K, outcome: Fetch<V>)
    requires AsyncValid(a) && AsyncValid(b) && key in a.concurrent && key in b.concurrent
    requires a.lru == b.lru
    ensures Complete(a, key, outcome).state.lru == Complete(b, key, outcome).state.lru
  {
  }

  /**
   Two callers asking for a missing key while its fetch runs: the second
   joins the first, the miss function runs once, and both are answered with
   the one outcome when it completes.
   */
  lemma {:induction false} Coalesced<K(!new), V>(s: System<K, V>, key: K, outcome: Fetch<V>)
    requires SysValid(s)
    requires key !in s.cache.lru.cache && key !in s.cache.lru.weakrefs && key !in s.cache.concurrent
    ensures
      var s2 := RequestStep(RequestStep(s, key), key);
      && s2.fetching[key] == 1
      && var r := ResolveStep(s2, key, outcome);
      && r.fetching == s.fetching
      && s.next in r.delivered && r.delivered[s.next] == outcome
      && s.next + 1 in r.delivered && r.delivered[s.next + 1] == outcome
  {
    TwoWaiters(s, key);
    var s2 := RequestStep(RequestStep(s, key), key);
    AnsweredOnce(s2, key, outcome, s.next);
    AnsweredOnce(s2, key, outcome, s.next + 1);
    AddThenRemove(s.fetching, key);
  }

  /** The first caller of a missing key starts the fetch; the second joins its list. */
  lemma {:induction false} TwoWaiters<K(!new), V>(s: System<K, V>, key: K)
    requires SysValid(s)
    requires key !in s.cache.lru.cache && key !in s.cache.lru.weakrefs && key !in s.cache.concurrent
    ensures
      var s2 := RequestStep(RequestStep(s, key), key);
      && s2.fetching == s.fetching + multiset{key}
      && key in s2.cache.concurrent && s2.cache.concurrent[key] == [s.next, s.next + 1]
  {
  }

  /** Starting and finishing one fetch leaves the running fetches as they were. */
  lemma AddThenRemove<K>(m: multiset<K>, key: K)
    ensures m + multiset{key} - multiset{key} == m
  {
  }
}
