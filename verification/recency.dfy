/**
 Sequence facts about the recency queue of the LRU cache.

 The queue is an append-only log of key references: the key referenced most
 recently is at the end, and a key may occur many times. What matters for
 eviction is the order of each key's LAST occurrence; `KeepLast` computes it.

 Keys are plain values (`!new`): a cache key is hashed, never mutated.
 */
module Recency {

  /** The set of keys occurring in `s`. */
  function Elements<K(==)>(s: seq<K>): set<K>
  {
    set x | x in s
  }

  /** Appending a key adds it to the key set. */
  lemma ElementsAppend<K>(s: seq<K>, x: K)
    ensures Elements(s + [x]) == Elements(s) + {x}
  {
  }

  /** No key occurs twice in `s`. */
  ghost predicate NoDup<K>(s: seq<K>)
  {
    forall i, j :: 0 <= i < j < |s| ==> s[i] != s[j]
  }

  /** `s` with every occurrence of `x` dropped and the other keys kept in order. */
  function Without<K(==,!new)>(s: seq<K>, x: K): (r: seq<K>)
    ensures forall y :: y in r <==> y in s && y != x
    ensures x !in s ==> r == s
    ensures NoDup(s) ==> NoDup(r)
  {
    if s == [] then []
    else if s[0] == x then
      NoDupTail(s);
      Without(s[1..], x)
    else
      NoDupTail(s);
      assert s == [s[0]] + s[1..];
      var rest := Without(s[1..], x);
      NoDupCons(s[0], rest);
      [s[0]] + rest
  }

  /**
   The keys of `q`, each once, in the order of their last occurrence: an
   element of `q` is kept exactly when no later element of `q` equals it.
   */
  function KeepLast<K(==,!new)>(q: seq<K>): (r: seq<K>)
    ensures NoDup(r)
    ensures |r| <= |q|
    ensures q != [] ==> r != []
    decreases |q|, 0
  {
    if q == [] then []
    else if q[0] in q[1..] then KeepLast(q[1..])
    else
      var rest := KeepLast(q[1..]);
      KeepLastMembers(q[1..]);
      NoDupCons(q[0], rest);
      [q[0]] + rest
  }

  /** Compaction keeps exactly the keys that occur. */
  lemma {:induction false} KeepLastMembers<K(!new)>(q: seq<K>)
    ensures forall y :: y in KeepLast(q) <==> y in q
    decreases |q|, 1
  {
    if q != [] {
      KeepLastMembers(q[1..]);
      assert q == [q[0]] + q[1..];
    }
  }

  /** Compaction keeps the key set. */
  lemma KeepLastElements<K(!new)>(q: seq<K>)
    ensures Elements(KeepLast(q)) == Elements(q)
  {
    KeepLastMembers(q);
  }

  /** The position of the last occurrence of `x` in `q`, or -1 when `x` does not occur. */
  function LastIndex<K(==)>(q: seq<K>, x: K): (i: int)
    ensures x in q ==> 0 <= i < |q| && q[i] == x && x !in q[i + 1..]
    ensures x !in q ==> i == -1
  {
    if q == [] then -1
    else if q[0] == x && x !in q[1..] then 0
    else
      var j := LastIndex(q[1..], x);
      if j < 0 then -1
      else
        assert q[1..][j + 1..] == q[j + 2..];
        1 + j
  }

  /** Putting a key that is absent in front of a duplicate-free sequence keeps it duplicate-free. */
  lemma NoDupCons<K>(x: K, s: seq<K>)
    ensures NoDup(s) && x !in s ==> NoDup([x] + s)
  {
    if NoDup(s) && x !in s {
      var r := [x] + s;
      forall i, j | 0 <= i < j < |r|
        ensures r[i] != r[j]
      {
        assert r[j] == s[j - 1];
        if i > 0 {
          assert r[i] == s[i - 1];
        }
      }
    }
  }

  /** Appending a key that is absent to a duplicate-free sequence keeps it duplicate-free. */
  lemma NoDupSnoc<K>(s: seq<K>, x: K)
    requires NoDup(s) && x !in s
    ensures NoDup(s + [x])
  {
  }

  /** Dropping the head of a duplicate-free sequence keeps it duplicate-free and loses the head. */
  lemma NoDupTail<K>(s: seq<K>)
    requires s != []
    ensures NoDup(s) ==> NoDup(s[1..]) && s[0] !in s[1..]
  {
    if NoDup(s) {
      forall j | 0 <= j < |s[1..]|
        ensures s[1..][j] != s[0]
      {
        assert s[1..][j] == s[j + 1];
      }
    }
  }

  /** A key that recurs after the head has its last occurrence in the tail. */
  lemma LastIndexInTail<K>(q: seq<K>, y: K)
    requires q != [] && y in q[1..]
    ensures LastIndex(q, y) == 1 + LastIndex(q[1..], y)
  {
  }

  /** Two kept keys appear in the order of their last occurrences in `q`. */
  lemma {:induction false} KeepLastPairOrder<K(!new)>(q: seq<K>, i: nat, j: nat)
    requires i < j < |KeepLast(q)|
    ensures LastIndex(q, KeepLast(q)[i]) < LastIndex(q, KeepLast(q)[j])
    decreases |q|, 1
  {
    if q[0] in q[1..] {
      KeepLastPairShared(q, i, j);
    } else {
      KeepLastPairHead(q, i, j);
    }
  }

  /** The pair step when the head of `q` recurs later: the kept keys are those of the tail. */
  lemma {:induction false} KeepLastPairShared<K(!new)>(q: seq<K>, i: nat, j: nat)
    requires q != [] && q[0] in q[1..]
    requires i < j < |KeepLast(q)|
    ensures LastIndex(q, KeepLast(q)[i]) < LastIndex(q, KeepLast(q)[j])
    decreases |q|, 0
  {
    var t := q[1..];
    var r := KeepLast(q);
    assert r == KeepLast(t);
    KeepLastPairOrder(t, i, j);
    KeepLastMembers(t);
    LastIndexInTail(q, r[i]);
    LastIndexInTail(q, r[j]);
  }

  /** The pair step when the head of `q` is its own last occurrence: it is kept first. */
  lemma {:induction false} KeepLastPairHead<K(!new)>(q: seq<K>, i: nat, j: nat)
    requires q != [] && q[0] !in q[1..]
    requires i < j < |KeepLast(q)|
    ensures LastIndex(q, KeepLast(q)[i]) < LastIndex(q, KeepLast(q)[j])
    decreases |q|, 0
  {
    var t := q[1..];
    var rt := KeepLast(t);
    var r := KeepLast(q);
    assert r == [q[0]] + rt;
    assert r[j] == rt[j - 1];
    KeepLastMembers(t);
    LastIndexInTail(q, r[j]);
    if i > 0 {
      KeepLastPairOrder(t, i - 1, j - 1);
      assert r[i] == rt[i - 1];
      LastIndexInTail(q, r[i]);
    }
  }

  /** `KeepLast(q)` lists the keys of `q` by increasing position of their last occurrence. */
  lemma KeepLastOrdersByLastOccurrence<K(!new)>(q: seq<K>)
    ensures forall i, j :: 0 <= i < j < |KeepLast(q)| ==>
      LastIndex(q, KeepLast(q)[i]) < LastIndex(q, KeepLast(q)[j])
  {
    forall i, j | 0 <= i < j < |KeepLast(q)|
      ensures LastIndex(q, KeepLast(q)[i]) < LastIndex(q, KeepLast(q)[j])
    {
      KeepLastPairOrder(q, i, j);
    }
  }

  /** Referencing `x` once more moves `x` to the end of the last-occurrence order. */
  lemma {:induction false} KeepLastAppend<K(!new)>(q: seq<K>, x: K)
    ensures KeepLast(q + [x]) == Without(KeepLast(q), x) + [x]
  {
    if q == [] {
      assert q + [x] == [x];
      assert KeepLast([x]) == [x] + KeepLast([x][1..]);
    } else {
      var t := q[1..];
      var qx := q + [x];
      assert qx[0] == q[0];
      assert qx[1..] == t + [x];
      KeepLastAppend(t, x);
      var rt := KeepLast(t);
      if q[0] in t {
        assert q[0] in qx[1..];
        assert KeepLast(qx) == KeepLast(t + [x]);
        assert KeepLast(q) == rt;
      } else if q[0] == x {
        assert q[0] in qx[1..];
        assert KeepLast(qx) == KeepLast(t + [x]);
        assert KeepLast(q) == [x] + rt;
        assert Without([x] + rt, x) == Without(rt, x);
      } else {
        assert q[0] !in qx[1..];
        assert KeepLast(qx) == [q[0]] + KeepLast(t + [x]);
        assert KeepLast(q) == [q[0]] + rt;
        assert Without([q[0]] + rt, x) == [q[0]] + Without(rt, x);
      }
    }
  }

  /** A queue that already holds each key once is its own last-occurrence order. */
  lemma {:induction false} KeepLastOfNoDup<K(!new)>(q: seq<K>)
    requires NoDup(q)
    ensures KeepLast(q) == q
  {
    if q != [] {
      NoDupTail(q);
      KeepLastOfNoDup(q[1..]);
      assert q == [q[0]] + q[1..];
    }
  }

  /** Compacting twice is compacting once. */
  lemma KeepLastIdempotent<K(!new)>(q: seq<K>)
    ensures KeepLast(KeepLast(q)) == KeepLast(q)
  {
    KeepLastOfNoDup(KeepLast(q));
  }

  /** A duplicate-free sequence has as many distinct keys as elements. */
  lemma {:induction false} NoDupCardinality<K>(s: seq<K>)
    requires NoDup(s)
    ensures |Elements(s)| == |s|
  {
    if s != [] {
      var t := s[1..];
      assert Elements(s) == {s[0]} + Elements(t);
      NoDupTail(s);
      NoDupCardinality(t);
    }
  }

  /** In a duplicate-free sequence every key present occurs exactly once. */
  lemma {:induction false} NoDupOccursOnce<K>(s: seq<K>, x: K)
    requires NoDup(s)
    ensures multiset(s)[x] == if x in s then 1 else 0
  {
    if s != [] {
      var t := s[1..];
      assert s == [s[0]] + t;
      assert multiset(s) == multiset{s[0]} + multiset(t);
      NoDupTail(s);
      NoDupOccursOnce(t, x);
    }
  }
}
