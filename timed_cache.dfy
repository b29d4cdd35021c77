/**
 * `lru17::TimedCache`: an `lru17::Cache` whose entries carry the time
 * they were inserted.  Expiry is decided lazily, on read: an entry older
 * than the time-to-live is removed from the inner cache when a lookup
 * finds it, and reported as missing.  The clock is an explicit integer
 * `now` argument and the time-to-live a natural number of the same unit.
 */
module TimedLru17 {
  import opened LruModel
  import opened Lru17

  /** The inner cache's payload: `std::pair<Value, TimePoint>`. */
  datatype Stamped<V> = Stamped(value: V, time: int)

  /** `Clock::now() - time > timeToLive_`: strictly older than the time-to-live. */
  predicate Expired(now: int, time: int, ttl: nat): (b: bool)
    ensures b ==> now > time
    ensures !b <==> now <= time + ttl
  {
    now - time > ttl
  }

  /** Time only ages an entry: once expired, it is expired at every later instant. */
  lemma ExpiryIsFinal(now: int, later: int, time: int, ttl: nat)
    requires Expired(now, time, ttl) && now <= later
    ensures Expired(later, time, ttl)
  {
  }

  /** `insert(k, v)`: the inner insert of `(v, now)`. */
  function TimedInsert<K(==), V>(st: State<K, Stamped<V>>, k: K, v: V, now: int, maxSize: Size, elasticity: Size)
    : (r: State<K, Stamped<V>>)
    requires Valid(st)
    ensures Valid(r)
  {
    Insert(st, k, Stamped(v, now), maxSize, elasticity)
  }

  /**
   * `tryGet(k)`: the inner lookup, which promotes a hit; an expired hit
   * is then removed and reported as missing.
   */
  function TimedTryGet<K(==), V>(st: State<K, Stamped<V>>, k: K, now: int, ttl: nat)
    : (r: (State<K, Stamped<V>>, Option<V>))
    requires Valid(st)
    ensures Valid(r.0)
  {
    var (s, found) := TryGet(st, k);
    if found.None? then (s, None)
    else if Expired(now, found.value.time, ttl) then (Remove(s, k).0, None)
    else (s, Some(found.value.value))
  }

  /**
   * `unsafeGet(k)`: the inner `get`, which promotes a hit and raises
   * `KeyNotFound` on a miss; an expired hit is removed and raises
   * `KeyNotFound` as well.
   */
  function TimedUnsafeGet<K(==), V>(st: State<K, Stamped<V>>, k: K, now: int, ttl: nat)
    : (r: (State<K, Stamped<V>>, Result<V>))
    requires Valid(st)
    ensures Valid(r.0)
  {
    var (s, got) := Get(st, k);
    if got.Err? then (s, Err(got.error))
    else if Expired(now, got.value.time, ttl) then (Remove(s, k).0, Err(KeyNotFound))
    else (s, Ok(got.value.value))
  }

  // ---------------------------------------------------------------------
  // Lemmas
  // ---------------------------------------------------------------------

  /**
   * `tryGet` returns the stored value exactly when the key is indexed and
   * its entry is at most `ttl` old; a live hit is promoted, an expired hit
   * is promoted and then unindexed, so its node stays at the front as an
   * orphan; a miss changes nothing.
   */
  lemma TimedTryGetEffect<K, V>(st: State<K, Stamped<V>>, k: K, now: int, ttl: nat)
    requires Valid(st)
    ensures var (r, found) := TimedTryGet(st, k, now, ttl);
      && (found.Some? <==> k in st.index && !Expired(now, st.nodes[st.index[k]].value.time, ttl))
      && (found.Some? ==> found.value == st.nodes[st.index[k]].value.value && r == TryGet(st, k).0)
      && (k !in st.index ==> r == st)
      && (k in st.index && Expired(now, st.nodes[st.index[k]].value.time, ttl) ==>
            && r.order == TryGet(st, k).0.order && r.nodes == st.nodes
            && r.order[0] == st.index[k] && r.nodes[r.order[0]].key !in r.index
            && r.index == st.index - {k}
            && !Bijective(r))
  {
    var s := TryGet(st, k).0;
    TryGetEffect(st, k);
    if k in st.index && Expired(now, st.nodes[st.index[k]].value.time, ttl) {
      RemoveEffect(s, k);
      RemoveOrphans(s, k);
    }
  }

  /**
   * The comparison is strict: an entry exactly `ttl` old is still
   * returned, and one a tick older is not.
   */
  lemma ExpiryBoundary<K, V>(st: State<K, Stamped<V>>, k: K, ttl: nat)
    requires Valid(st) && k in st.index
    ensures var e := st.nodes[st.index[k]];
      && TimedTryGet(st, k, e.value.time + ttl, ttl).1 == Some(e.value.value)
      && TimedTryGet(st, k, e.value.time + ttl + 1, ttl).1 == None
  {
    var e := st.nodes[st.index[k]];
    TimedTryGetEffect(st, k, e.value.time + ttl, ttl);
    TimedTryGetEffect(st, k, e.value.time + ttl + 1, ttl);
  }

  /**
   * Expiry is final: once a read has found the entry expired, the key
   * stays missing for every later read, whatever the clock says, until
   * it is inserted again.
   */
  lemma ExpiredStaysMissing<K, V>(st: State<K, Stamped<V>>, k: K, now: int, later: int, ttl: nat)
    requires Valid(st) && k in st.index && Expired(now, st.nodes[st.index[k]].value.time, ttl)
    ensures var r := TimedTryGet(st, k, now, ttl).0;
      && k !in r.index
      && TimedTryGet(r, k, later, ttl) == (r, None)
      && TimedUnsafeGet(r, k, later, ttl) == (r, Err(KeyNotFound))
  {
    TimedTryGetEffect(st, k, now, ttl);
  }

  /**
   * `unsafeGet` and `tryGet` leave the same state; `unsafeGet` returns
   * the value where `tryGet` does and raises `KeyNotFound` where
   * `tryGet` returns nothing.
   */
  lemma UnsafeGetAgreesWithTryGet<K, V>(st: State<K, Stamped<V>>, k: K, now: int, ttl: nat)
    requires Valid(st)
    ensures var (r, found) := TimedTryGet(st, k, now, ttl);
      && TimedUnsafeGet(st, k, now, ttl).0 == r
      && TimedUnsafeGet(st, k, now, ttl).1 == (if found.Some? then Ok(found.value) else Err(KeyNotFound))
  {
    GetAgreesWithTryGet(st, k);
  }

  /**
   * Re-inserting an indexed key refreshes both the value and the
   * timestamp and promotes its node, without changing the index; the
   * entry then reads back until `ttl` has elapsed from the new time.
   */
  lemma InsertRefreshes<K, V>(st: State<K, Stamped<V>>, k: K, v: V, now: int, later: int, ttl: nat,
                              maxSize: Size, elasticity: Size)
    requires Valid(st) && k in st.index && later - now <= ttl
    ensures var r := TimedInsert(st, k, v, now, maxSize, elasticity);
      && r.index == st.index && r.order[0] == st.index[k]
      && Lookup(r, k) == Some(Stamped(v, now))
      && TimedTryGet(r, k, later, ttl).1 == Some(v)
  {
    var r := TimedInsert(st, k, v, now, maxSize, elasticity);
    InsertExisting(st, k, Stamped(v, now), maxSize, elasticity);
    TimedTryGetEffect(r, k, later, ttl);
  }

  /**
   * A new key just inserted into an unbounded cache, or into a bounded one
   * without orphans, reads back until `ttl` has elapsed.
   */
  lemma InsertNewReadsBack<K, V>(st: State<K, Stamped<V>>, k: K, v: V, now: int, later: int, ttl: nat,
                                 maxSize: Size, elasticity: Size)
    requires Valid(st) && k !in st.index && later - now <= ttl
    requires maxSize == 0 || (Bijective(st) && maxSize >= 1)
    ensures TimedTryGet(TimedInsert(st, k, v, now, maxSize, elasticity), k, later, ttl).1 == Some(v)
  {
    var r := TimedInsert(st, k, v, now, maxSize, elasticity);
    InsertNewSurvives(st, k, Stamped(v, now), maxSize, elasticity);
    TimedTryGetEffect(r, k, later, ttl);
  }

  /**
   * A time-to-live cache: the inner cache holds `(value, time)` pairs;
   * `ttl` is `timeToLive_`.
   */
  class TimedCache<K(==), V> {
    const cache: Cache<K, Stamped<V>>
    const ttl: nat

    ghost predicate Valid()
      reads this, cache
    {
      cache.Valid()
    }

    /** `TimedCache(timeToLive, maxSize = 64, elasticity = 10)`. */
    constructor (ttl: nat, maxSize: Size := 64, elasticity: Size := 10)
      ensures Valid() && fresh(cache) && cache.Model() == Initial()
      ensures this.ttl == ttl && cache.maxSize == maxSize && cache.elasticity == elasticity
    {
      this.ttl := ttl;
      cache := new Cache(maxSize, elasticity);
    }

    /** `clear()`: clears the inner cache. */
    method Clear()
      requires Valid()
      modifies cache
      ensures Valid() && cache.Model() == LruModel.Clear(old(cache.Model()))
      ensures Size() == 0 && Empty()
    {
      cache.Clear();
    }

    /** `empty()`: the inner cache's `empty()`, expired entries included. */
    function Empty(): (b: bool)
      reads this, cache
      requires Valid()
      ensures b <==> |cache.index| == 0
      ensures Bijective(cache.Model()) ==> (b <==> cache.order == [])
    {
      cache.Empty()
    }

    /** `size()`: the inner cache's `size()`; entries not yet read after expiring still count. */
    function Size(): (n: nat)
      reads this, cache
      requires Valid()
      ensures n == |cache.index| && n <= |cache.order|
      ensures cache.maxSize > 0 ==> n <= cache.maxSize + cache.elasticity
      ensures cache.maxSize > 0 ==> n < cache.maxSize + cache.elasticity || n <= cache.maxSize
    {
      cache.Size()
    }

    /** `getMaxSize()`. */
    function MaxSize(): (r: Size)
      reads this
    {
      cache.maxSize
    }

    /** `getElasticity()`. */
    function Elasticity(): (r: Size)
      reads this
    {
      cache.elasticity
    }

    /** `getMaxAllowedSize()`: the inner cache's hard limit. */
    function MaxAllowedSize(): (r: Size)
      reads this
      ensures cache.maxSize + cache.elasticity < SIZE_LIMIT ==> r == cache.maxSize + cache.elasticity
      ensures cache.maxSize + cache.elasticity >= SIZE_LIMIT ==> r == cache.maxSize + cache.elasticity - SIZE_LIMIT
    {
      cache.MaxAllowedSize()
    }

    /** `cwalk`: the inner list contents with their timestamps, most recent first. */
    function Walk(): (r: seq<Node<K, Stamped<V>>>)
      reads this, cache
      requires Valid()
      ensures r == LruModel.Walk(cache.Model())
    {
      cache.Walk()
    }

    /** `insert(k, v)`: insert `(v, now)` into the inner cache. */
    method Insert(k: K, v: V, now: int)
      requires Valid()
      modifies cache
      ensures Valid()
      ensures cache.Model() == TimedInsert(old(cache.Model()), k, v, now, cache.maxSize, cache.elasticity)
      ensures Lookup(cache.Model(), k).Some? ==> Lookup(cache.Model(), k) == Some(Stamped(v, now))
    {
      cache.Insert(k, Stamped(v, now));
    }

    /** `tryGet(k)`: the stored value if `k` is present and not expired; an expired entry is removed. */
    method TryGet(k: K, now: int) returns (r: Option<V>)
      requires Valid()
      modifies cache
      ensures Valid()
      ensures (cache.Model(), r) == TimedTryGet(old(cache.Model()), k, now, ttl)
    {
      var found := cache.TryGet(k);
      if found.None? {
        return None;
      }
      if Expired(now, found.value.time, ttl) {
        var _ := Remove(k);
        return None;
      }
      r := Some(found.value.value);
    }

    /** `unsafeGet(k)`: as `tryGet`, raising `KeyNotFound` when missing or expired. */
    method UnsafeGet(k: K, now: int) returns (r: Result<V>)
      requires Valid()
      modifies cache
      ensures Valid()
      ensures (cache.Model(), r) == TimedUnsafeGet(old(cache.Model()), k, now, ttl)
    {
      var got := cache.Get(k);
      if got.Err? {
        return Err(got.error);
      }
      if Expired(now, got.value.time, ttl) {
        var _ := Remove(k);
        return Err(KeyNotFound);
      }
      r := Ok(got.value.value);
    }

    /** `remove(k)`: the inner cache's `remove(k)`. */
    method Remove(k: K) returns (removed: bool)
      requires Valid()
      modifies cache
      ensures Valid() && (cache.Model(), removed) == LruModel.Remove(old(cache.Model()), k)
      ensures removed == old(cache.Contains(k)) && !cache.Contains(k)
    {
      removed := cache.Remove(k);
    }
  }
}
