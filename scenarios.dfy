/**
 * Concrete runs of the engine and of the timed wrapper: least recently
 * used eviction, the effect of an orphan left by `remove`, and the
 * sample program's expiry check.
 */
module Scenarios {
  import opened LruModel
  import opened Lru17
  import opened TimedLru17

  /** A new key that keeps the index below `maxSize` is only added: the prune pops nothing. */
  lemma InsertWithoutEviction<K, V>(st: State<K, V>, k: K, v: V, maxSize: Size, elasticity: Size)
    requires Valid(st) && k !in st.index && (maxSize == 0 || |st.index| < maxSize)
    ensures Insert(st, k, v, maxSize, elasticity) == Grow(st, k, v)
  {
    GrowLookups(st, k, v);
  }

  /**
   * A new key that takes the index one past `maxSize`, at the hard limit,
   * makes the prune pop exactly the back node when that unindexes one key.
   */
  lemma InsertEvictsBack<K, V>(st: State<K, V>, k: K, v: V, maxSize: Size, elasticity: Size)
    requires Valid(st) && k !in st.index && maxSize > 0
    requires |st.index| == maxSize && MaxAllowed(maxSize, elasticity) <= maxSize + 1
    requires var g := Grow(st, k, v); |g.order| > 0 && |EvictBack(g).index| == maxSize
    ensures Insert(st, k, v, maxSize, elasticity) == EvictBack(Grow(st, k, v))
  {
    GrowLookups(st, k, v);
    EvictWhileStep(Grow(st, k, v), maxSize);
  }

  /** The state after inserting `a`, then `b`, into an empty cache: node 0 holds `a`, node 1 holds `b`. */
  function AfterAB<K, V>(a: K, va: V, b: K, vb: V): State<K, V>
  {
    State(map[0 := Node(a, va), 1 := Node(b, vb)], [1, 0], map[a := 0, b := 1], 2)
  }

  /** Two inserts of distinct keys into an empty cache with room for both. */
  lemma TwoInserts<K, V>(a: K, va: V, b: K, vb: V)
    requires a != b
    ensures Insert(Insert(Initial<K, V>(), a, va, 2, 0), b, vb, 2, 0) == AfterAB(a, va, b, vb)
    ensures Bijective(AfterAB(a, va, b, vb)) && |AfterAB(a, va, b, vb).index| == 2
  {
    var s0 := Initial<K, V>();
    InsertWithoutEviction(s0, a, va, 2, 0);
    var s1 := Grow(s0, a, va);
    GrowLookups(s0, a, va);
    InsertWithoutEviction(s1, b, vb, 2, 0);
    GrowLookups(s1, b, vb);
  }

  /** Reading the older of two keys puts its node in front of the other one. */
  lemma ReadOlder<K, V>(a: K, va: V, b: K, vb: V)
    requires a != b && Bijective(AfterAB(a, va, b, vb))
    ensures TryGet(AfterAB(a, va, b, vb), a).0 == AfterAB(a, va, b, vb).(order := [0, 1])
    ensures Bijective(AfterAB(a, va, b, vb).(order := [0, 1]))
  {
    assert Without([1, 0], 0) == [1];
    assert Without([0, 1], 0) == [1];
    TryGetEffect(AfterAB(a, va, b, vb), a);
  }

  /** A third key takes node 2 at the front. */
  lemma ThirdKeyGrows<K, V>(a: K, va: V, b: K, vb: V, c: K, vc: V)
    requires a != b && a != c && b != c && Valid(AfterAB(a, va, b, vb).(order := [0, 1]))
    ensures Grow(AfterAB(a, va, b, vb).(order := [0, 1]), c, vc)
         == State(map[0 := Node(a, va), 1 := Node(b, vb), 2 := Node(c, vc)], [2, 0, 1], map[a := 0, b := 1, c := 2], 3)
  {
    assert [2] + [0, 1] == [2, 0, 1];
  }

  /** Its prune pops node 1, at the back, and with it the key `b`. */
  lemma ThirdKeyEvictsBack<K, V>(a: K, va: V, b: K, vb: V, c: K, vc: V)
    requires a != b && a != c && b != c
    requires Valid(State(map[0 := Node(a, va), 1 := Node(b, vb), 2 := Node(c, vc)], [2, 0, 1], map[a := 0, b := 1, c := 2], 3))
    ensures EvictBack(State(map[0 := Node(a, va), 1 := Node(b, vb), 2 := Node(c, vc)], [2, 0, 1], map[a := 0, b := 1, c := 2], 3))
         == State(map[0 := Node(a, va), 2 := Node(c, vc)], [2, 0], map[a := 0, c := 2], 3)
  {
    DropMiddleOfThree(Node(a, va), Node(b, vb), Node(c, vc));
    DropMiddleKeyOfThree(a, b, c);
  }

  lemma DropMiddleOfThree<T>(x: T, y: T, z: T)
    ensures map[0 := x, 1 := y][2 := z] - {1} == map[0 := x, 2 := z]
  {
  }

  lemma DropMiddleKeyOfThree<K>(a: K, b: K, c: K)
    requires a != b && a != c && b != c
    ensures map[a := 0, b := 1][c := 2] - {b} == map[a := 0, c := 2]
  {
  }

  /**
   * With `maxSize` 2 and no elasticity: insert A and B, `get(A)`, insert C.
   * The read made B the least recently used node, so the prune that C
   * triggers evicts B and keeps A and C.
   */
  lemma RecencyDecidesEviction<K, V>(a: K, va: V, b: K, vb: V, c: K, vc: V)
    requires a != b && b != c && a != c
    ensures var s2 := Insert(Insert(Initial<K, V>(), a, va, 2, 0), b, vb, 2, 0);
      var s3 := Get(s2, a).0;
      var s4 := Insert(s3, c, vc, 2, 0);
      && Lookup(s4, a) == Some(va) && Lookup(s4, c) == Some(vc) && Lookup(s4, b) == None
      && Walk(s4) == [Node(c, vc), Node(a, va)]
  {
    var s3 := AfterAB(a, va, b, vb).(order := [0, 1]);
    var s4 := State(map[0 := Node(a, va), 2 := Node(c, vc)], [2, 0], map[a := 0, c := 2], 3);
    assert Get(Insert(Insert(Initial<K, V>(), a, va, 2, 0), b, vb, 2, 0), a).0 == s3 && Bijective(s3) by {
      TwoInserts(a, va, b, vb);
      ReadOlder(a, va, b, vb);
      GetAgreesWithTryGet(AfterAB(a, va, b, vb), a);
    }
    assert Insert(s3, c, vc, 2, 0) == s4 by {
      TwoInserts(a, va, b, vb);
      InsertAtLimitPopsBack(s3, c, vc, 2, 0);
      ThirdKeyGrows(a, va, b, vb, c, vc);
      ThirdKeyEvictsBack(a, va, b, vb, c, vc);
    }
    RecencyRunEnd(a, va, c, vc);
  }

  /** What the recency run ends with: A and C are found, B is not. */
  lemma RecencyRunEnd<K, V>(a: K, va: V, c: K, vc: V)
    requires a != c && Valid(State(map[0 := Node(a, va), 2 := Node(c, vc)], [2, 0], map[a := 0, c := 2], 3))
    ensures var s4 := State(map[0 := Node(a, va), 2 := Node(c, vc)], [2, 0], map[a := 0, c := 2], 3);
      && Lookup(s4, a) == Some(va) && Lookup(s4, c) == Some(vc)
      && (forall k :: k != a && k != c ==> Lookup(s4, k) == None)
      && Walk(s4) == [Node(c, vc), Node(a, va)]
  {
  }

  /** The states of the orphan run, nodes numbered in allocation order. */
  function AfterEvictA<K, V>(b: K, vb: V, c: K, vc: V): State<K, V>
  {
    State(map[1 := Node(b, vb), 2 := Node(c, vc)], [2, 1], map[b := 1, c := 2], 3)
  }

  function AfterReinsertB<K, V>(b: K, vb: V, c: K, vc: V, vb2: V): State<K, V>
  {
    State(map[1 := Node(b, vb), 2 := Node(c, vc), 3 := Node(b, vb2)], [3, 2, 1], map[c := 2, b := 3], 4)
  }

  function AfterInsertD<K, V>(b: K, c: K, vc: V, vb2: V, d: K, vd: V): State<K, V>
  {
    State(map[2 := Node(c, vc), 3 := Node(b, vb2), 4 := Node(d, vd)], [4, 3, 2], map[c := 2, d := 4], 5)
  }

  /** A third key evicts the first. */
  lemma OrphanStepEvictFirst<K, V>(a: K, va: V, b: K, vb: V, c: K, vc: V)
    requires a != b && a != c && b != c
    ensures Insert(Insert(Insert(Initial<K, V>(), a, va, 2, 0), b, vb, 2, 0), c, vc, 2, 0) == AfterEvictA(b, vb, c, vc)
  {
    var s2 := AfterAB(a, va, b, vb);
    assert Insert(Insert(Initial<K, V>(), a, va, 2, 0), b, vb, 2, 0) == s2 && Bijective(s2) by {
      TwoInserts(a, va, b, vb);
    }
    assert Insert(s2, c, vc, 2, 0) == EvictBack(Grow(s2, c, vc)) by {
      TwoInserts(a, va, b, vb);
      InsertAtLimitPopsBack(s2, c, vc, 2, 0);
    }
    ThirdKeyEvictsFirst(a, va, b, vb, c, vc);
  }

  lemma ThirdKeyEvictsFirst<K, V>(a: K, va: V, b: K, vb: V, c: K, vc: V)
    requires a != b && a != c && b != c && Valid(AfterAB(a, va, b, vb))
    ensures var g := Grow(AfterAB(a, va, b, vb), c, vc);
      |g.order| > 0 && EvictBack(g) == AfterEvictA(b, vb, c, vc)
  {
    var g := Grow(AfterAB(a, va, b, vb), c, vc);
    assert g.order == [2, 1, 0];
    DropFirstOfThree(Node(a, va), Node(b, vb), Node(c, vc));
    DropKeyOfThree(a, b, c);
  }

  lemma DropFirstOfThree<T>(x: T, y: T, z: T)
    ensures map[0 := x, 1 := y][2 := z] - {0} == map[1 := y, 2 := z]
  {
  }

  lemma DropKeyOfThree<K>(a: K, b: K, c: K)
    requires a != b && a != c && b != c
    ensures map[a := 0, b := 1][c := 2] - {a} == map[b := 1, c := 2]
  {
  }

  /** Removing B leaves its node in the list; inserting B again allocates a second node. */
  lemma OrphanStepReinsert<K, V>(b: K, vb: V, c: K, vc: V, vb2: V)
    requires b != c && Valid(AfterEvictA(b, vb, c, vc))
    ensures Insert(Remove(AfterEvictA(b, vb, c, vc), b).0, b, vb2, 2, 0) == AfterReinsertB(b, vb, c, vc, vb2)
  {
    var s4 := Remove(AfterEvictA(b, vb, c, vc), b).0;
    assert s4.index == map[c := 2];
    InsertWithoutEviction(s4, b, vb2, 2, 0);
  }

  /** D's prune pops B's old node and with it the key B, which names B's new node. */
  lemma OrphanStepEvictLive<K, V>(b: K, vb: V, c: K, vc: V, vb2: V, d: K, vd: V)
    requires b != c && b != d && c != d && Valid(AfterReinsertB(b, vb, c, vc, vb2))
    ensures Insert(AfterReinsertB(b, vb, c, vc, vb2), d, vd, 2, 0) == AfterInsertD(b, c, vc, vb2, d, vd)
  {
    FourthKeyGrows(b, vb, c, vc, vb2, d, vd);
    FourthKeyPopsOrphan(b, vb, c, vc, vb2, d, vd);
    TwoKeys(c, 2, b, 3);
    InsertEvictsBack(AfterReinsertB(b, vb, c, vc, vb2), d, vd, 2, 0);
  }

  lemma TwoKeys<K>(k1: K, id1: NodeId, k2: K, id2: NodeId)
    requires k1 != k2
    ensures |map[k1 := id1, k2 := id2]| == 2
  {
    assert map[k1 := id1, k2 := id2].Keys == {k1, k2};
  }

  function GrownWithD<K, V>(b: K, vb: V, c: K, vc: V, vb2: V, d: K, vd: V): State<K, V>
  {
    State(map[1 := Node(b, vb), 2 := Node(c, vc), 3 := Node(b, vb2), 4 := Node(d, vd)], [4, 3, 2, 1],
          map[c := 2, b := 3, d := 4], 5)
  }

  lemma FourthKeyGrows<K, V>(b: K, vb: V, c: K, vc: V, vb2: V, d: K, vd: V)
    requires b != c && b != d && c != d && Valid(AfterReinsertB(b, vb, c, vc, vb2))
    ensures Grow(AfterReinsertB(b, vb, c, vc, vb2), d, vd) == GrownWithD(b, vb, c, vc, vb2, d, vd)
  {
    assert [4] + [3, 2, 1] == [4, 3, 2, 1];
  }

  lemma FourthKeyPopsOrphan<K, V>(b: K, vb: V, c: K, vc: V, vb2: V, d: K, vd: V)
    requires b != c && b != d && c != d && Valid(GrownWithD(b, vb, c, vc, vb2, d, vd))
    ensures EvictBack(GrownWithD(b, vb, c, vc, vb2, d, vd)) == AfterInsertD(b, c, vc, vb2, d, vd)
    ensures |AfterInsertD(b, c, vc, vb2, d, vd).index| == 2
  {
    DropFirstOfFour(Node(b, vb), Node(c, vc), Node(b, vb2), Node(d, vd));
    DropKeyOfThreeAfterUpdate(b, c, d);
    assert AfterInsertD(b, c, vc, vb2, d, vd).index.Keys == {c, d};
  }

  lemma DropFirstOfFour<T>(w: T, x: T, y: T, z: T)
    ensures map[1 := w, 2 := x, 3 := y][4 := z] - {1} == map[2 := x, 3 := y, 4 := z]
  {
  }

  lemma DropKeyOfThreeAfterUpdate<K>(b: K, c: K, d: K)
    requires b != c && b != d && c != d
    ensures map[c := 2, b := 3][d := 4] - {b} == map[c := 2, d := 4]
  {
  }

  /** What the orphan run ends with: D and C are found, B is not, and B's new node is an orphan. */
  lemma OrphanRunEnd<K, V>(b: K, c: K, vc: V, vb2: V, d: K, vd: V)
    requires b != c && b != d && c != d && Valid(AfterInsertD(b, c, vc, vb2, d, vd))
    ensures var s6 := AfterInsertD(b, c, vc, vb2, d, vd);
      && Lookup(s6, b) == None && Lookup(s6, c) == Some(vc) && Lookup(s6, d) == Some(vd)
      && Walk(s6) == [Node(d, vd), Node(b, vb2), Node(c, vc)]
      && !Bijective(s6)
  {
    var s6 := AfterInsertD(b, c, vc, vb2, d, vd);
    assert 3 in s6.nodes && s6.nodes[3].key !in s6.index;
  }

  /**
   * With `maxSize` 2 and no elasticity: insert A, B, C (A is evicted),
   * remove B, insert B again, insert D.  B's old node is still at the
   * back of the list; the prune that D triggers pops it and erases the
   * key B from the index, which now names B's new node.  The newer B is
   * lost while the older C is kept, and B's new node becomes an orphan.
   */
  lemma OrphanEvictsLiveKey<K, V>(a: K, va: V, b: K, vb: V, c: K, vc: V, vb2: V, d: K, vd: V)
    requires a != b && a != c && a != d && b != c && b != d && c != d
    ensures var s3 := Insert(Insert(Insert(Initial<K, V>(), a, va, 2, 0), b, vb, 2, 0), c, vc, 2, 0);
      var s5 := Insert(Remove(s3, b).0, b, vb2, 2, 0);
      var s6 := Insert(s5, d, vd, 2, 0);
      && Lookup(s5, b) == Some(vb2)
      && Lookup(s6, b) == None && Lookup(s6, c) == Some(vc) && Lookup(s6, d) == Some(vd)
      && Walk(s6) == [Node(d, vd), Node(b, vb2), Node(c, vc)]
      && !Bijective(s6)
  {
    OrphanStepEvictFirst(a, va, b, vb, c, vc);
    OrphanStepReinsert(b, vb, c, vc, vb2);
    OrphanStepEvictLive(b, vb, c, vc, vb2, d, vd);
    OrphanRunEnd(b, c, vc, vb2, d, vd);
  }

  /**
   * The sample program: a time-to-live of 3000 ms, `maxSize` 5, no
   * elasticity; "Hello" maps to "World", is read back at once, and is
   * gone when read 4000 ms later.
   */
  method SampleTimed(start: int) returns (first: Result<string>, later: Option<string>)
    ensures first == Ok("World") && later == None
  {
    var cache := new TimedCache<string, string>(3000, 5, 0);
    cache.Insert("Hello", "World", start);
    InsertNewReadsBack(Initial(), "Hello", "World", start, start, 3000, 5, 0);
    UnsafeGetAgreesWithTryGet(cache.cache.Model(), "Hello", start, 3000);
    first := cache.UnsafeGet("Hello", start);
    later := cache.TryGet("Hello", start + 4000);
  }
}
