/**
 * The generic fixed-capacity cache of `lru_freshness_cache.h`.
 *
 * State: an LRU queue of (key, value) pairs, newest first; a per-key
 * freshness flag; and a counter `freshCount`. Admission is gated by the
 * counter (`put` is refused when the cache is full and the counter says no
 * entry is stale), while eviction always removes the queue tail whatever its
 * flag. The counter is bumped by every `get` hit and decremented by every
 * eviction, so it is NOT the number of fresh flags: it is modelled exactly
 * as the source keeps it.
 */
module FreshnessCache {
  import opened Wrappers

  datatype Cache<K(==), V> = Cache(
    maxSize: nat,
    queue: seq<(K, V)>,      // most recently put or got first
    flags: map<K, bool>,
    freshCount: nat)

  /** The keys held in a queue. */
  function KeysOf<K(==), V>(q: seq<(K, V)>): set<K>
  {
    if |q| == 0 then {} else {q[0].0} + KeysOf(q[1..])
  }

  /** No key occurs twice in the queue. */
  predicate Distinct<K(==), V>(q: seq<(K, V)>)
  {
    |q| == 0 || (q[0].0 !in KeysOf(q[1..]) && Distinct(q[1..]))
  }

  /** The key/value association a queue represents (the front occurrence wins). */
  function AsMap<K(==), V>(q: seq<(K, V)>): (m: map<K, V>)
    ensures m.Keys == KeysOf(q)
  {
    if |q| == 0 then map[] else AsMap(q[1..])[q[0].0 := q[0].1]
  }

  /** The queue with every occurrence of `k` removed, order otherwise kept. */
  function Without<K(==), V>(q: seq<(K, V)>, k: K): (r: seq<(K, V)>)
    ensures KeysOf(r) == KeysOf(q) - {k}
    ensures AsMap(r) == AsMap(q) - {k}
    ensures Distinct(q) ==> Distinct(r)
    ensures Distinct(q) ==> |r| == if k in KeysOf(q) then |q| - 1 else |q|
    ensures k !in KeysOf(q) ==> r == q
  {
    if |q| == 0 then []
    else if q[0].0 == k then Without(q[1..], k)
    else [q[0]] + Without(q[1..], k)
  }

  /** The invariant every reachable cache satisfies. */
  predicate Valid<K(==), V>(c: Cache<K, V>)
  {
    && Distinct(c.queue)
    && c.flags.Keys == KeysOf(c.queue)
    && |c.queue| <= c.maxSize
  }

  /** The constructor: an empty cache of capacity `maxSize`. */
  function Empty<K(==), V>(maxSize: nat): (c: Cache<K, V>)
    ensures Valid(c)
    ensures Size(c) == 0 && c.maxSize == maxSize
    ensures !ContainsStale(c)
    ensures Full(c) <==> maxSize == 0
  {
    Cache(maxSize, [], map[], 0)
  }

  /** A distinct queue holds as many keys as entries. */
  lemma {:induction false} DistinctCard<K, V>(q: seq<(K, V)>)
    requires Distinct(q)
    ensures |KeysOf(q)| == |q|
  {
    if |q| > 0 {
      DistinctCard(q[1..]);
    }
  }

  /** A key is held exactly when some entry of the queue carries it. */
  lemma {:induction false} KeysOfIndex<K, V>(q: seq<(K, V)>, key: K)
    ensures key in KeysOf(q) <==> exists i :: 0 <= i < |q| && q[i].0 == key
  {
    if |q| > 0 {
      KeysOfIndex(q[1..], key);
      if key in KeysOf(q[1..]) {
        var i :| 0 <= i < |q[1..]| && q[1..][i].0 == key;
        assert q[i + 1].0 == key;
      }
      if exists i :: 0 <= i < |q| && q[i].0 == key {
        var i :| 0 <= i < |q| && q[i].0 == key;
        if i > 0 {
          assert q[1..][i - 1].0 == key;
        }
      }
    }
  }

  /** `size()`: the number of entries of the position map. */
  function Size<K(==), V>(c: Cache<K, V>): nat
  {
    |c.queue|
  }

  /** `exists(key)`: the position map has the key. */
  predicate Exists<K(==), V>(c: Cache<K, V>, key: K)
  {
    key in KeysOf(c.queue)
  }

  /** `full()`. */
  predicate Full<K(==), V>(c: Cache<K, V>)
  {
    Size(c) == c.maxSize
  }

  /**
   * `contains_stale()`: reads the counter, not the flags, so it can hold
   * while every flag is set (the counter drifts with repeated `get`s and
   * evictions).
   */
  predicate ContainsStale<K(==), V>(c: Cache<K, V>)
  {
    c.freshCount < Size(c)
  }

  /**
   * `is_fresh(key)`, that is `fresh.at(key)`: the key's flag, or None where
   * `at` throws `std::out_of_range` because the key has no flag.
   */
  function IsFresh<K(==), V>(c: Cache<K, V>, key: K): (r: Option<bool>)
    ensures r.None? <==> key !in c.flags
    ensures r.Some? ==> r.value == c.flags[key]
  {
    if key in c.flags then Some(c.flags[key]) else None
  }

  /**
   * The queries of a valid cache agree with its two maps: `size()` counts
   * the keys (of the position map and of the flag map alike) and never
   * exceeds the capacity; `exists(key)` holds exactly when some queue entry
   * carries the key, which is exactly when `is_fresh(key)` does not throw;
   * a cache that is not `full()` has room for one more key.
   */
  lemma QueriesAgree<K, V>(c: Cache<K, V>, key: K)
    requires Valid(c)
    ensures Size(c) == |c.flags| == |AsMap(c.queue)| && Size(c) <= c.maxSize
    ensures Exists(c, key) <==> exists i :: 0 <= i < |c.queue| && c.queue[i].0 == key
    ensures Exists(c, key) <==> IsFresh(c, key).Some?
    ensures Full(c) <==> |c.flags| == c.maxSize
    ensures !Full(c) ==> Size(c) + 1 <= c.maxSize
  {
    DistinctCard(c.queue);
    KeysOfIndex(c.queue, key);
  }

  /**
   * `contains_stale()` compares the counter with the number of keys; on an
   * empty cache it is false whatever the counter says.
   */
  lemma ContainsStaleCountsKeys<K, V>(c: Cache<K, V>)
    requires Valid(c)
    ensures ContainsStale(c) <==> c.freshCount < |c.flags|
    ensures Size(c) == 0 ==> !ContainsStale(c)
  {
    DistinctCard(c.queue);
  }

  /** The key at the tail of the queue: the least recently put or got one. */
  function Tail<K(==), V>(c: Cache<K, V>): K
    requires |c.queue| > 0
  {
    c.queue[|c.queue| - 1].0
  }

  /** Whether `put(key, _)` on `c` evicts the tail. */
  predicate Evicts<K(==), V>(c: Cache<K, V>, key: K)
  {
    !Exists(c, key) && Full(c)
  }

  /** Dropping the last element removes exactly its key. */
  lemma {:induction false} DropLast<K, V>(q: seq<(K, V)>)
    requires Distinct(q) && |q| > 0
    ensures Distinct(q[..|q| - 1])
    ensures KeysOf(q[..|q| - 1]) == KeysOf(q) - {q[|q| - 1].0}
    ensures AsMap(q[..|q| - 1]) == AsMap(q) - {q[|q| - 1].0}
  {
    if |q| == 1 {
      assert q[..0] == [];
    } else {
      var t := q[1..];
      HeadNotTail(q);
      DropLast(t);
      assert q[..|q| - 1] == [q[0]] + t[..|t| - 1];
      assert (q[..|q| - 1])[1..] == t[..|t| - 1];
      assert q[|q| - 1] == t[|t| - 1];
    }
  }

  /** The tail key is in the queue. */
  lemma {:induction false} LastInKeys<K, V>(q: seq<(K, V)>)
    requires |q| > 0
    ensures q[|q| - 1].0 in KeysOf(q)
  {
    if |q| > 1 {
      LastInKeys(q[1..]);
      assert q[1..][|q| - 2] == q[|q| - 1];
    }
  }

  /** The first element's key differs from every other key of a distinct queue. */
  lemma {:induction false} HeadNotTail<K, V>(q: seq<(K, V)>)
    requires Distinct(q) && |q| >= 2
    ensures q[0].0 != q[|q| - 1].0
  {
    LastInKeys(q[1..]);
    assert q[1..][|q| - 2] == q[|q| - 1];
  }

  /** The queue with `(key, value)` at the front and every other entry kept in order. */
  function MoveToFront<K(==), V>(q: seq<(K, V)>, key: K, value: V): (r: seq<(K, V)>)
    requires Distinct(q)
    ensures Distinct(r)
    ensures |r| > 0 && r[0] == (key, value) && r[1..] == Without(q, key)
    ensures KeysOf(r) == KeysOf(q) + {key}
    ensures AsMap(r) == AsMap(q)[key := value]
    ensures |r| == if key in KeysOf(q) then |q| else |q| + 1
  {
    var r := [(key, value)] + Without(q, key);
    assert r[1..] == Without(q, key);
    r
  }

  /** The queue without its last entry; that entry's key is gone. */
  function DropTail<K(==), V>(q: seq<(K, V)>): (r: seq<(K, V)>)
    requires Distinct(q) && |q| > 0
    ensures r == q[..|q| - 1]
    ensures Distinct(r)
    ensures KeysOf(r) == KeysOf(q) - {q[|q| - 1].0}
    ensures AsMap(r) == AsMap(q) - {q[|q| - 1].0}
  {
    DropLast(q);
    q[..|q| - 1]
  }

  /**
   * The accepted branch of `put` when the key is already present or there is
   * room: move to front, set the flag, count it if it was not already set.
   */
  function PutNoEviction<K(==), V>(c: Cache<K, V>, key: K, value: V): (r: Cache<K, V>)
    requires Valid(c) && !Evicts(c, key)
    ensures Valid(r) && r.maxSize == c.maxSize
    ensures |r.queue| > 0 && r.queue[0] == (key, value) && r.queue[1..] == Without(c.queue, key)
    ensures KeysOf(r.queue) == KeysOf(c.queue) + {key}
    ensures AsMap(r.queue) == AsMap(c.queue)[key := value]
    ensures Size(r) == if Exists(c, key) then Size(c) else Size(c) + 1
    ensures r.flags == c.flags[key := true]
    ensures r.freshCount == c.freshCount + (if key in c.flags && c.flags[key] then 0 else 1)
  {
    var n1: nat := if key in c.flags && c.flags[key] then c.freshCount else c.freshCount + 1;
    Cache(c.maxSize, MoveToFront(c.queue, key, value), c.flags[key := true], n1)
  }

  /**
   * The accepted branch of `put` for a new key in a full cache: the queue
   * overflows by one and its tail is evicted, flag and all; the counter is
   * incremented for the new key and decremented for the victim.
   */
  function PutEvicting<K(==), V>(c: Cache<K, V>, key: K, value: V): (r: Cache<K, V>)
    requires Valid(c) && Evicts(c, key) && Size(c) > 0
    ensures Valid(r) && r.maxSize == c.maxSize
    ensures |r.queue| > 0 && r.queue[0] == (key, value) && r.queue[1..] <= Without(c.queue, key)
    ensures Size(r) == Size(c) && Tail(c) != key
    ensures KeysOf(r.queue) == KeysOf(c.queue) + {key} - {Tail(c)}
    ensures AsMap(r.queue) == AsMap(c.queue)[key := value] - {Tail(c)}
    ensures r.flags == c.flags[key := true] - {Tail(c)}
    ensures r.freshCount == c.freshCount
  {
    var q1 := MoveToFront(c.queue, key, value);
    var victim := q1[|q1| - 1].0;
    assert q1[|q1| - 1] == c.queue[|c.queue| - 1];
    HeadNotTail(q1);
    var q2 := DropTail(q1);
    assert q2[1..] == q1[1..][..|q1| - 2];
    // the new key's flag was absent, so the counter went up before it comes down
    Cache(c.maxSize, q2, c.flags[key := true] - {victim}, c.freshCount + 1 - 1)
  }

  /**
   * `put(key, value)`. Refused (false, nothing changes) when the cache is full
   * and the counter reports no stale entry, even if `key` is present. Otherwise
   * the key moves to the front with the new value, its flag becomes true (the
   * counter grows only if the flag was false or absent), and if the queue then
   * exceeds the capacity its tail is evicted and the counter decremented,
   * whatever the tail's flag was.
   */
  function Put<K(==), V>(c: Cache<K, V>, key: K, value: V): (r: (Cache<K, V>, bool))
    requires Valid(c)
    ensures Valid(r.0)
    ensures r.1 <==> !(Full(c) && !ContainsStale(c))
    ensures !r.1 ==> r.0 == c
    ensures r.1 ==> r.0.maxSize == c.maxSize
    // the key is at the front, with the new value, and fresh
    ensures r.1 ==> |r.0.queue| > 0 && r.0.queue[0] == (key, value) && IsFresh(r.0, key) == Some(true)
    // the others keep their relative order; only the old tail may be dropped
    ensures r.1 ==> r.0.queue[1..] <= Without(c.queue, key)
    // the size never exceeds the capacity: an overflowing insert evicts exactly the tail
    ensures r.1 && Exists(c, key) ==> Size(r.0) == Size(c)
    ensures r.1 && !Exists(c, key) && !Full(c) ==> Size(r.0) == Size(c) + 1
    ensures r.1 && !Evicts(c, key) ==> KeysOf(r.0.queue) == KeysOf(c.queue) + {key}
    ensures r.1 && Evicts(c, key) ==>
      && Size(c) > 0
      && Size(r.0) == Size(c)
      && Tail(c) != key
      && KeysOf(r.0.queue) == KeysOf(c.queue) + {key} - {Tail(c)}
    // the values: the abstract map is updated at `key`, minus the evicted tail
    ensures r.1 && !Evicts(c, key) ==> AsMap(r.0.queue) == AsMap(c.queue)[key := value]
    ensures r.1 && Evicts(c, key) ==> AsMap(r.0.queue) == AsMap(c.queue)[key := value] - {Tail(c)}
    // other flags are untouched
    ensures r.1 ==> forall k :: k in r.0.flags && k != key ==> r.0.flags[k] == c.flags[k]
    // the counter: +1 unless the flag was already true, -1 on eviction
    ensures r.1 ==>
      r.0.freshCount == c.freshCount
                        + (if key in c.flags && c.flags[key] then 0 else 1)
                        - (if Evicts(c, key) then 1 else 0)
  {
    if Full(c) && !ContainsStale(c) then (c, false)
    else if Evicts(c, key) then (PutEvicting(c, key, value), true)
    else (PutNoEviction(c, key, value), true)
  }

  /**
   * `get(key)`. A hit moves the key to the front, sets its flag and bumps the
   * counter (even when the flag was already true) and returns the value; a
   * miss returns nothing and changes nothing.
   */
  function Get<K(==), V>(c: Cache<K, V>, key: K): (r: (Cache<K, V>, Option<V>))
    requires Valid(c)
    ensures Valid(r.0)
    ensures r.1.None? <==> !Exists(c, key)
    ensures r.1.None? ==> r.0 == c
    ensures r.1.Some? ==>
      && r.1.value == AsMap(c.queue)[key]
      && |r.0.queue| > 0
      && r.0.queue[0] == (key, r.1.value)
      && r.0.queue[1..] == Without(c.queue, key)
      && AsMap(r.0.queue) == AsMap(c.queue)
      && Size(r.0) == Size(c)
      && r.0.flags == c.flags[key := true]
      && r.0.freshCount == c.freshCount + 1
      && r.0.maxSize == c.maxSize
  {
    if !Exists(c, key) then (c, None)
    else
      var v := AsMap(c.queue)[key];
      (Cache(c.maxSize, MoveToFront(c.queue, key, v), c.flags[key := true], c.freshCount + 1), Some(v))
  }

  /** `invalidate()`: every flag false, counter zero; keys, values and order untouched. */
  function Invalidate<K(==), V>(c: Cache<K, V>): (r: Cache<K, V>)
    requires Valid(c)
    ensures Valid(r)
    ensures r.queue == c.queue && r.maxSize == c.maxSize
    ensures r.flags.Keys == c.flags.Keys
    ensures forall k :: k in r.flags ==> IsFresh(r, k) == Some(false)
    ensures ContainsStale(r) <==> Size(r) > 0
    ensures r.freshCount == 0
  {
    Cache(c.maxSize, c.queue, map k | k in c.flags :: false, 0)
  }
}

module FreshnessCacheTrace {
  import opened Wrappers
  import opened FreshnessCache

  /** One call on the cache. */
  datatype Op<K, V> = PutOp(key: K, value: V) | GetOp(key: K) | InvalidateOp

  /** Applies a sequence of calls in order; the capacity bound holds after every one. */
  function Run<K(==), V>(c: Cache<K, V>, ops: seq<Op<K, V>>): (r: Cache<K, V>)
    requires Valid(c)
    ensures Valid(r)
    ensures Size(r) <= r.maxSize && r.maxSize == c.maxSize
    decreases |ops|
  {
    if |ops| == 0 then c
    else
      var c1 := match ops[0]
        case PutOp(k, v) => Put(c, k, v).0
        case GetOp(k) => Get(c, k).0
        case InvalidateOp => Invalidate(c);
      Run(c1, ops[1..])
  }

  // The states of the cache's unit test, capacity 3, queue newest first.
  const AfterPutA: Cache<string, int> := Cache(3, [("a", 17)], map["a" := true], 1)
  const AfterPutB: Cache<string, int> := Cache(3, [("b", -12), ("a", 17)], map["a" := true, "b" := true], 2)
  const AfterPutC: Cache<string, int> := Cache(3, [("c", 43), ("b", -12), ("a", 17)], map["a" := true, "b" := true, "c" := true], 3)
  const AfterGetA: Cache<string, int> := Cache(3, [("a", 17), ("c", 43), ("b", -12)], map["a" := true, "b" := true, "c" := true], 4)
  const AfterGetAAgain: Cache<string, int> := Cache(3, [("a", 17), ("c", 43), ("b", -12)], map["a" := true, "b" := true, "c" := true], 5)
  const AfterGetC: Cache<string, int> := Cache(3, [("c", 43), ("a", 17), ("b", -12)], map["a" := true, "b" := true, "c" := true], 6)
  const AfterInvalidate: Cache<string, int> := Cache(3, [("c", 43), ("a", 17), ("b", -12)], map["b" := false, "a" := false, "c" := false], 0)
  const AfterPutD: Cache<string, int> := Cache(3, [("d", 14), ("c", 43), ("a", 17)], map["a" := false, "c" := false, "d" := true], 0)
  const AfterPutE: Cache<string, int> := Cache(3, [("e", -1), ("d", 14), ("c", 43)], map["c" := false, "d" := true, "e" := true], 0)
  const AfterPutF: Cache<string, int> := Cache(3, [("f", -1), ("e", -1), ("d", 14)], map["d" := true, "e" := true, "f" := true], 0)

  // One lemma per call of the unit test.
  lemma StepPutA() ensures Put(Empty<string, int>(3), "a", 17) == (AfterPutA, true) {
    var r := Put(Empty<string, int>(3), "a", 17);
    assert KeysOf<string, int>([]) == {};
    assert r.0.queue == AfterPutA.queue;
    assert r.0.flags == AfterPutA.flags;
    assert r.0.freshCount == AfterPutA.freshCount;
  }
  lemma StepPutB() ensures Put(AfterPutA, "b", -12) == (AfterPutB, true) {
    var r := Put(AfterPutA, "b", -12);
    assert KeysOf(AfterPutA.queue) == {"a"};
    assert r.0.queue == AfterPutB.queue;
    assert r.0.flags == AfterPutB.flags;
    assert r.0.freshCount == AfterPutB.freshCount;
  }
  lemma StepPutC() ensures Put(AfterPutB, "c", 43) == (AfterPutC, true) {
    var r := Put(AfterPutB, "c", 43);
    assert KeysOf(AfterPutB.queue) == {"b", "a"};
    assert r.0.queue == AfterPutC.queue;
    assert r.0.flags == AfterPutC.flags;
    assert r.0.freshCount == AfterPutC.freshCount;
  }
  lemma StepGetA() ensures Get(AfterPutC, "a") == (AfterGetA, Some(17)) {
    var r := Get(AfterPutC, "a");
    assert KeysOf(AfterPutC.queue) == {"c", "b", "a"};
    assert Without(AfterPutC.queue, "a") == [("c", 43), ("b", -12)];
    assert r.0.queue == AfterGetA.queue;
    assert r.0.flags == AfterGetA.flags;
    assert r.0.freshCount == AfterGetA.freshCount;
  }
  lemma StepGetAAgain() ensures Get(AfterGetA, "a") == (AfterGetAAgain, Some(17)) {
    var r := Get(AfterGetA, "a");
    assert KeysOf(AfterGetA.queue) == {"c", "b", "a"};
    assert Without(AfterGetA.queue, "a") == [("c", 43), ("b", -12)];
    assert r.0.queue == AfterGetAAgain.queue;
    assert r.0.flags == AfterGetAAgain.flags;
    assert r.0.freshCount == AfterGetAAgain.freshCount;
  }
  lemma StepGetC() ensures Get(AfterGetAAgain, "c") == (AfterGetC, Some(43)) {
    var r := Get(AfterGetAAgain, "c");
    assert KeysOf(AfterGetAAgain.queue) == {"c", "b", "a"};
    assert Without(AfterGetAAgain.queue, "c") == [("a", 17), ("b", -12)];
    assert r.0.queue == AfterGetC.queue;
    assert r.0.flags == AfterGetC.flags;
    assert r.0.freshCount == AfterGetC.freshCount;
  }
  lemma StepRefuseD() ensures Put(AfterGetC, "d", 14) == (AfterGetC, false) && Invalidate(AfterGetC) == AfterInvalidate {
    assert KeysOf(AfterGetC.queue) == {"c", "b", "a"};
  }
  /** The keys of a three-entry queue. */
  lemma KeysOfThree<K, V>(q: seq<(K, V)>)
    requires |q| == 3
    ensures KeysOf(q) == {q[0].0, q[1].0, q[2].0}
  {
    assert KeysOf(q[1..][1..][1..]) == {};
    assert KeysOf(q[1..][1..]) == {q[2].0};
    assert KeysOf(q[1..]) == {q[1].0, q[2].0};
  }

  /** A full three-entry cache with three distinct keys, flagged exactly, is valid. */
  lemma ValidThree<K, V>(c: Cache<K, V>)
    requires c.maxSize == 3 && |c.queue| == 3
    requires c.queue[0].0 != c.queue[1].0 && c.queue[0].0 != c.queue[2].0 && c.queue[1].0 != c.queue[2].0
    requires c.flags.Keys == {c.queue[0].0, c.queue[1].0, c.queue[2].0}
    ensures Valid(c) && KeysOf(c.queue) == c.flags.Keys
  {
    KeysOfThree(c.queue);
    var t := c.queue[1..];
    assert KeysOf(t[1..][1..]) == {};
    assert KeysOf(t[1..]) == {t[1].0};
    assert Distinct(t[1..]);
  }

  /**
   * A put of a new key into a full three-entry cache whose counter reports
   * staleness: the key goes in front, the tail and its flag go, and the
   * counter is unchanged.
   */
  lemma PutEvictsThird<K, V>(c: Cache<K, V>, key: K, value: V)
    requires Valid(c) && c.maxSize == 3 && |c.queue| == 3 && ContainsStale(c)
    requires key !in KeysOf(c.queue)
    ensures Put(c, key, value) ==
      (Cache(3, [(key, value), c.queue[0], c.queue[1]], c.flags[key := true] - {c.queue[2].0}, c.freshCount), true)
  {
    var r := Put(c, key, value).0;
    assert r == PutEvicting(c, key, value);
    assert r.queue[1..] <= c.queue;
    assert r.queue == [(key, value), c.queue[0], c.queue[1]];
  }

  /** Replacing the flag of `x` by a fresh flag for `w` in a three-key flag map. */
  lemma SwapFlag<K>(x: K, y: K, z: K, w: K, fx: bool, fy: bool, fz: bool)
    requires x != y && x != z && x != w && w != y && w != z
    ensures map[x := fx, y := fy, z := fz][w := true] - {x} == map[y := fy, z := fz, w := true]
  {
  }

  lemma StepPutD() ensures Put(AfterInvalidate, "d", 14) == (AfterPutD, true) {
    ValidThree(AfterInvalidate);
    PutEvictsThird(AfterInvalidate, "d", 14);
    SwapFlag("b", "a", "c", "d", false, false, false);
  }
  lemma StepPutE() ensures Put(AfterPutD, "e", -1) == (AfterPutE, true) {
    ValidThree(AfterPutD);
    PutEvictsThird(AfterPutD, "e", -1);
    SwapFlag("a", "c", "d", "e", false, false, true);
  }
  lemma StepPutF() ensures Put(AfterPutE, "f", -1) == (AfterPutF, true) {
    ValidThree(AfterPutE);
    PutEvictsThird(AfterPutE, "f", -1);
    SwapFlag("c", "d", "e", "f", false, true, true);
  }

  /** The calls of the unit test before the refused `put("d")`. */
  const FillAndTouch: seq<Op<string, int>> :=
    [PutOp("a", 17), PutOp("b", -12), PutOp("c", 43), GetOp("a"), GetOp("a"), GetOp("c")]

  /**
   * The first half of the cache's unit test: capacity 3; put a, b, c; get a,
   * a, c (order c a b); the cache is full, the counter (6) reports nothing
   * stale, and put d is refused; invalidate then clears every flag.
   */
  lemma DoctestFillAndRefuse()
    ensures Run(Empty<string, int>(3), FillAndTouch) == AfterGetC
    ensures Full(AfterGetC) && !ContainsStale(AfterGetC) && !Put(AfterGetC, "d", 14).1
    ensures Invalidate(AfterGetC) == AfterInvalidate && ContainsStale(AfterInvalidate)
  {
    StepPutA(); StepPutB(); StepPutC(); StepGetA(); StepGetAAgain(); StepGetC();
    StepRefuseD();
    var ops := FillAndTouch;
    assert Run(Empty<string, int>(3), ops) == Run(AfterPutA, ops[1..]);
    assert Run(AfterPutA, ops[1..]) == Run(AfterPutB, ops[2..]);
    assert Run(AfterPutB, ops[2..]) == Run(AfterPutC, ops[3..]);
    assert Run(AfterPutC, ops[3..]) == Run(AfterGetA, ops[4..]);
    assert Run(AfterGetA, ops[4..]) == Run(AfterGetAAgain, ops[5..]);
    assert Run(AfterGetAAgain, ops[5..]) == Run(AfterGetC, ops[6..]);
  }

  /**
   * After invalidate, put d succeeds and evicts the queue tail b; c and a
   * survive stale, d is fresh, and the counter (back to 0) reports staleness.
   */
  lemma DoctestPutDEvictsB()
    ensures Tail(AfterInvalidate) == "b" && Put(AfterInvalidate, "d", 14) == (AfterPutD, true)
    ensures KeysOf(AfterPutD.queue) == {"d", "c", "a"} && ContainsStale(AfterPutD) && Full(AfterPutD)
    ensures IsFresh(AfterPutD, "d") == Some(true) && IsFresh(AfterPutD, "c") == Some(false) && IsFresh(AfterPutD, "a") == Some(false)
  {
    StepPutD();
    KeysOfThree(AfterPutD.queue);
  }

  /** Put e then evicts the new tail a; c is still stale. */
  lemma DoctestPutEEvictsA()
    ensures Tail(AfterPutD) == "a" && Put(AfterPutD, "e", -1) == (AfterPutE, true)
    ensures KeysOf(AfterPutE.queue) == {"e", "d", "c"} && ContainsStale(AfterPutE)
    ensures IsFresh(AfterPutE, "e") == Some(true) && IsFresh(AfterPutE, "d") == Some(true) && IsFresh(AfterPutE, "c") == Some(false)
  {
    StepPutE();
    KeysOfThree(AfterPutE.queue);
  }

  /**
   * Put f evicts c. Now d, e and f are all fresh, yet `contains_stale()`
   * holds: every eviction decremented the counter, so it has drifted to 0.
   */
  lemma DoctestPutFEvictsC()
    ensures Tail(AfterPutE) == "c" && Put(AfterPutE, "f", -1) == (AfterPutF, true)
    ensures KeysOf(AfterPutF.queue) == {"f", "e", "d"} && Full(AfterPutF)
    ensures forall k :: k in AfterPutF.flags ==> IsFresh(AfterPutF, k) == Some(true)
    ensures ContainsStale(AfterPutF) && AfterPutF.freshCount == 0
  {
    StepPutF();
    KeysOfThree(AfterPutF.queue);
  }
}
