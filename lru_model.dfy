/**
 * Value-level model of the eviction engine `lru17::Cache`.
 *
 * The engine keeps a doubly linked recency list `keys_` (front = most
 * recently used) and an index `cache_` from key to list node.  Here the
 * list nodes live in an arena addressed by stable node ids, the list is
 * the sequence of those ids, and the index maps keys to ids.  Because
 * `remove` unlinks a key from the index only, a node may stay in the list
 * without being indexed (an orphan), and a later insert of the same key
 * then creates a second node carrying that key.  The state below allows
 * both; `Valid` is the invariant that does hold, `Bijective` the stronger
 * one that holds as long as no `remove` has happened.
 */
module LruModel {

  /** `size_t` is 64 bits wide: capacities are taken modulo 2^64. */
  const SIZE_LIMIT: int := 0x1_0000_0000_0000_0000
  type Size = n: nat | n < SIZE_LIMIT

  type NodeId = nat

  datatype Option<T> = None | Some(value: T)

  /** The one error kind, raised by `get` on a miss. */
  datatype Error = KeyNotFound
  datatype Result<T> = Ok(value: T) | Err(error: Error)

  /** `KeyValuePair`: the payload of one list node. */
  datatype Node<K, V> = Node(key: K, value: V)

  /**
   * `nodes` is the arena holding the list nodes, `order` is `keys_` as
   * node ids (front first), `index` is `cache_`, and `nextId` is where
   * the next node is allocated.
   */
  datatype State<K(==), V> = State(
    nodes: map<NodeId, Node<K, V>>,
    order: seq<NodeId>,
    index: map<K, NodeId>,
    nextId: NodeId)

  function Initial<K(==), V>(): (r: State<K, V>)
    ensures Bijective(r) && |r.index| == 0
  {
    State(map[], [], map[], 0)
  }

  ghost predicate Distinct<T>(s: seq<T>)
  {
    forall i, j :: 0 <= i < j < |s| ==> s[i] != s[j]
  }

  /**
   * The invariant every operation keeps: the list holds distinct nodes,
   * exactly the nodes of the arena, all allocated below `nextId`, and
   * every index entry names a listed node that carries the entry's key.
   */
  ghost predicate Valid<K, V>(st: State<K, V>)
  {
    && Distinct(st.order)
    && (forall id :: id in st.nodes <==> id in st.order)
    && (forall id :: id in st.nodes ==> id < st.nextId)
    && (forall k :: k in st.index ==> st.index[k] in st.nodes && st.nodes[st.index[k]].key == k)
  }

  /** Additionally every listed node is the one its key is indexed to: no orphans. */
  ghost predicate Bijective<K, V>(st: State<K, V>)
  {
    && Valid(st)
    && (forall id :: id in st.nodes ==> st.nodes[id].key in st.index && st.index[st.nodes[id].key] == id)
  }

  /**
   * The capacity policy a bounded cache keeps between operations: it is
   * below the hard limit `maxSize + elasticity` (reaching it triggers a
   * prune), or it holds at most `maxSize` keys.
   */
  ghost predicate WithinCapacity<K, V>(st: State<K, V>, maxSize: Size, elasticity: Size)
  {
    maxSize == 0 || |st.index| < maxSize + elasticity || |st.index| <= maxSize
  }

  /** `getMaxAllowedSize`: `maxSize + elasticity` in `size_t` arithmetic. */
  function MaxAllowed(maxSize: Size, elasticity: Size): (r: Size)
    ensures maxSize + elasticity < SIZE_LIMIT ==> r == maxSize + elasticity
    ensures maxSize + elasticity >= SIZE_LIMIT ==> r == maxSize + elasticity - SIZE_LIMIT && r < maxSize
  {
    (maxSize + elasticity) % SIZE_LIMIT
  }

  /** `s` with every occurrence of `x` taken out, the rest in order. */
  function Without(s: seq<NodeId>, x: NodeId): (r: seq<NodeId>)
    ensures forall y :: y in r <==> y in s && y != x
    ensures x !in s ==> r == s
    ensures Distinct(s) ==> Distinct(r) && |r| == if x in s then |s| - 1 else |s|
  {
    if s == [] then []
    else
      var rest := Without(s[1..], x);
      assert Distinct(s) ==> Distinct(s[1..]) && s[0] !in s[1..];
      if s[0] == x then rest else [s[0]] + rest
  }

  /** `keys_.splice(keys_.begin(), keys_, it)`: move node `id` to the front. */
  function Promote(order: seq<NodeId>, id: NodeId): (r: seq<NodeId>)
    requires Distinct(order) && id in order
    ensures Distinct(r) && |r| == |order| && r[0] == id
    ensures forall y :: y in r <==> y in order
    ensures Without(r, id) == Without(order, id)
  {
    var rest := Without(order, id);
    assert ([id] + rest)[1..] == rest;
    [id] + rest
  }

  /** The value indexed under `k`, if any. */
  function Lookup<K(==), V>(st: State<K, V>, k: K): (r: Option<V>)
    requires Valid(st)
    ensures r.Some? <==> k in st.index
    ensures r.Some? ==> st.nodes[st.index[k]] == Node(k, r.value)
    ensures r.Some? ==> exists i :: 0 <= i < |st.order| && st.nodes[st.order[i]] == Node(k, r.value)
  {
    if k in st.index then
      var id := st.index[k];
      assert exists i :: 0 <= i < |st.order| && st.order[i] == id;
      Some(st.nodes[id].value)
    else None
  }

  /** `contains`: membership in the index, with no effect on the order. */
  function Contains<K(==), V>(st: State<K, V>, k: K): (b: bool)
    requires Valid(st)
    ensures b <==> Lookup(st, k).Some?
  {
    k in st.index
  }

  /** `cwalk`: the list contents from the most to the least recently used. */
  function Walk<K(==), V>(st: State<K, V>): (r: seq<Node<K, V>>)
    requires Valid(st)
    ensures |r| == |st.order|
    ensures forall i :: 0 <= i < |r| ==> r[i] == st.nodes[st.order[i]]
  {
    seq(|st.order|, i requires 0 <= i < |st.order| => st.nodes[st.order[i]])
  }

  /** One round of prune's loop: erase the back node's key from the index, then pop the node. */
  function EvictBack<K(==), V>(st: State<K, V>): (r: State<K, V>)
    requires Valid(st) && |st.order| > 0
    ensures |r.order| == |st.order| - 1 && r.nextId == st.nextId
    ensures st.order[|st.order| - 1] !in r.nodes && st.nodes[st.order[|st.order| - 1]].key !in r.index
  {
    var last := st.order[|st.order| - 1];
    State(st.nodes - {last}, st.order[..|st.order| - 1], st.index - {st.nodes[last].key}, st.nextId)
  }

  /** prune's `while (cache_.size() > maxSize_)` loop; the second component counts the nodes popped. */
  function EvictWhile<K(==), V>(st: State<K, V>, maxSize: Size): (r: (State<K, V>, nat))
    requires Valid(st)
    ensures Valid(r.0)
    decreases |st.order|
  {
    if |st.index| <= maxSize then (st, 0)
    else
      IndexBoundedByOrder(st);
      EvictBackFacts(st);
      var (s, c) := EvictWhile(EvictBack(st), maxSize);
      (s, c + 1)
  }

  /**
   * `prune`: nothing happens while the cache is unbounded or below the
   * hard limit; otherwise nodes are popped from the back until the index
   * holds `maxSize` keys.  Returns the new state and the number of nodes popped.
   */
  function Prune<K(==), V>(st: State<K, V>, maxSize: Size, elasticity: Size): (r: (State<K, V>, nat))
    requires Valid(st)
    ensures Valid(r.0)
  {
    if maxSize == 0 || |st.index| < MaxAllowed(maxSize, elasticity) then (st, 0)
    else EvictWhile(st, maxSize)
  }

  /** The growth path of `insert`: `emplace_front` a fresh node and index it. */
  function Grow<K(==), V>(st: State<K, V>, k: K, v: V): (r: State<K, V>)
    requires Valid(st) && k !in st.index
    ensures Valid(r)
    ensures Bijective(st) ==> Bijective(r)
  {
    var id := st.nextId;
    assert id !in st.order;
    State(st.nodes[id := Node(k, v)], [id] + st.order, st.index[k := id], id + 1)
  }

  /** `insert`: overwrite and promote a present key; otherwise grow, then prune. */
  function Insert<K(==), V>(st: State<K, V>, k: K, v: V, maxSize: Size, elasticity: Size): (r: State<K, V>)
    requires Valid(st)
    ensures Valid(r)
  {
    if k in st.index then
      var id := st.index[k];
      st.(nodes := st.nodes[id := Node(k, v)], order := Promote(st.order, id))
    else
      Prune(Grow(st, k, v), maxSize, elasticity).0
  }

  /** The lookup-and-promote step shared by `tryGet` and `get`. */
  function TryGet<K(==), V>(st: State<K, V>, k: K): (r: (State<K, V>, Option<V>))
    requires Valid(st)
    ensures Valid(r.0) && r.1 == Lookup(st, k)
  {
    if k in st.index then
      var id := st.index[k];
      (st.(order := Promote(st.order, id)), Some(st.nodes[id].value))
    else (st, None)
  }

  /** `get`: as `TryGet`, raising `KeyNotFound` on a miss. */
  function Get<K(==), V>(st: State<K, V>, k: K): (r: (State<K, V>, Result<V>))
    requires Valid(st)
    ensures Valid(r.0)
  {
    if k in st.index then
      var id := st.index[k];
      (st.(order := Promote(st.order, id)), Ok(st.nodes[id].value))
    else (st, Err(KeyNotFound))
  }

  /** `remove` as written: the key leaves the index, its node stays in the list. */
  function Remove<K(==), V>(st: State<K, V>, k: K): (r: (State<K, V>, bool))
    requires Valid(st)
    ensures Valid(r.0)
  {
    (st.(index := st.index - {k}), k in st.index)
  }

  /** `clear`: empty both the index and the list. */
  function Clear<K(==), V>(st: State<K, V>): (r: State<K, V>)
    requires Valid(st)
    ensures Bijective(r) && r.order == [] && |r.index| == 0
  {
    st.(nodes := map[], order := [], index := map[])
  }

  // ---------------------------------------------------------------------
  // Lemmas about the list and the index
  // ---------------------------------------------------------------------

  /** Popping the back node keeps the invariant and drops at most one index entry. */
  lemma EvictBackFacts<K, V>(st: State<K, V>)
    requires Valid(st) && |st.order| > 0
    ensures var r := EvictBack(st);
      && Valid(r) && r.nextId == st.nextId
      && r.order == st.order[..|st.order| - 1]
      && |st.index| - 1 <= |r.index| <= |st.index|
  {
    var r := EvictBack(st);
    var last := st.order[|st.order| - 1];
    var key := st.nodes[last].key;
    assert r.index.Keys == st.index.Keys - {key};
    forall k | k in r.index
      ensures r.index[k] in r.nodes && r.nodes[r.index[k]].key == k
    {
      assert r.index[k] != last;
    }
    forall id | id in r.nodes
      ensures id in r.order
    {
      var i :| 0 <= i < |st.order| && st.order[i] == id;
      assert i < |st.order| - 1;
      assert r.order[i] == id;
    }
  }

  /** Popping the back node keeps every other node and index entry as it was. */
  lemma EvictBackShrinks<K, V>(st: State<K, V>)
    requires Valid(st) && |st.order| > 0
    ensures var r := EvictBack(st);
      && (forall id :: id in r.nodes ==> id in st.nodes && r.nodes[id] == st.nodes[id])
      && (forall k :: k in r.index ==> k in st.index && r.index[k] == st.index[k])
  {
  }

  /**
   * Every index entry names its own listed node, so the index is never
   * larger than the list; this bounds prune's loop.
   */
  lemma {:induction false} IndexBoundedByOrder<K, V>(st: State<K, V>)
    requires Valid(st)
    ensures |st.index| <= |st.order|
    decreases |st.order|
  {
    if |st.order| == 0 {
      assert st.index.Keys == {};
    } else {
      EvictBackFacts(st);
      IndexBoundedByOrder(EvictBack(st));
    }
  }

  /** Without orphans, popping the back node unindexes exactly its key. */
  lemma EvictBackBijective<K, V>(st: State<K, V>)
    requires Bijective(st) && |st.order| > 0
    ensures Bijective(EvictBack(st))
    ensures |EvictBack(st).index| == |st.index| - 1
  {
    var r := EvictBack(st);
    var last := st.order[|st.order| - 1];
    var key := st.nodes[last].key;
    EvictBackFacts(st);
    assert last in st.nodes;
    assert key in st.index;
    assert r.index.Keys == st.index.Keys - {key};
    forall id | id in r.nodes
      ensures r.nodes[id].key in r.index && r.index[r.nodes[id].key] == id
    {
      assert id != last;
    }
  }

  /** `size()` never exceeds the list length, and equals it without orphans. */
  lemma SizeBounds<K, V>(st: State<K, V>)
    requires Valid(st)
    ensures |st.index| <= |st.order|
    ensures Bijective(st) ==> |st.index| == |st.order|
  {
    IndexBoundedByOrder(st);
    if Bijective(st) {
      BijectiveSizes(st);
    }
  }

  /** Without orphans the index and the list have the same size. */
  lemma {:induction false} BijectiveSizes<K, V>(st: State<K, V>)
    requires Bijective(st)
    ensures |st.index| == |st.order|
    decreases |st.order|
  {
    if |st.order| == 0 {
      IndexBoundedByOrder(st);
    } else {
      EvictBackBijective(st);
      BijectiveSizes(EvictBack(st));
    }
  }

  /** Taking the prefix of a one-shorter prefix: the count of dropped elements grows by one. */
  lemma PrefixStep(a: seq<NodeId>, n: nat, b: seq<NodeId>, c: seq<NodeId>)
    requires |c| > 0 && b == c[..|c| - 1]
    requires |a| <= |b| && a == b[..|a|] && n == |b| - |a|
    ensures |a| <= |c| && a == c[..|a|] && n + 1 == |c| - |a|
  {
  }

  /** One round of prune's loop, as the loop takes it: the back node exists and is popped. */
  lemma EvictWhileStep<K, V>(st: State<K, V>, maxSize: Size)
    requires Valid(st) && |st.index| > maxSize
    ensures |st.order| > 0 && Valid(EvictBack(st)) && EvictBack(st).nextId == st.nextId
    ensures EvictWhile(st, maxSize).0 == EvictWhile(EvictBack(st), maxSize).0
    ensures EvictWhile(st, maxSize).1 == EvictWhile(EvictBack(st), maxSize).1 + 1
  {
    IndexBoundedByOrder(st);
    EvictBackFacts(st);
  }

  /** prune's loop ends with exactly `maxSize` keys indexed when it starts above that. */
  lemma {:induction false} EvictWhileSize<K, V>(st: State<K, V>, maxSize: Size)
    requires Valid(st)
    ensures var r := EvictWhile(st, maxSize).0;
      |r.index| == (if |st.index| > maxSize then maxSize else |st.index|) && r.nextId == st.nextId
    decreases |st.order|
  {
    if |st.index| > maxSize {
      IndexBoundedByOrder(st);
      EvictBackFacts(st);
      var e := EvictBack(st);
      EvictWhileSize(e, maxSize);
      assert EvictWhile(st, maxSize).0 == EvictWhile(e, maxSize).0;
    }
  }

  /** prune's loop pops only from the back: what is left is a prefix of the list, and the count is what it dropped. */
  lemma {:induction false} EvictWhileSuffix<K, V>(st: State<K, V>, maxSize: Size)
    requires Valid(st)
    ensures |EvictWhile(st, maxSize).0.order| <= |st.order|
    ensures EvictWhile(st, maxSize).0.order == st.order[..|EvictWhile(st, maxSize).0.order|]
    ensures EvictWhile(st, maxSize).1 == |st.order| - |EvictWhile(st, maxSize).0.order|
    decreases |st.order|
  {
    if |st.index| > maxSize {
      EvictWhileStep(st, maxSize);
      var e := EvictBack(st);
      EvictWhileSuffix(e, maxSize);
      var r := EvictWhile(e, maxSize);
      PrefixStep(r.0.order, r.1, e.order, st.order);
    }
  }

  /** prune's loop only drops nodes and index entries; what it keeps is unchanged. */
  lemma {:induction false} EvictWhileShrinks<K, V>(st: State<K, V>, maxSize: Size)
    requires Valid(st)
    ensures var r := EvictWhile(st, maxSize).0;
      && (forall id :: id in r.nodes ==> id in st.nodes && r.nodes[id] == st.nodes[id])
      && (forall k :: k in r.index ==> k in st.index && r.index[k] == st.index[k])
    decreases |st.order|
  {
    if |st.index| > maxSize {
      IndexBoundedByOrder(st);
      EvictBackFacts(st);
      EvictBackShrinks(st);
      var e := EvictBack(st);
      EvictWhileShrinks(e, maxSize);
      assert EvictWhile(st, maxSize).0 == EvictWhile(e, maxSize).0;
    }
  }

  /** Without orphans, prune's loop keeps the bijection. */
  lemma {:induction false} EvictWhileBijective<K, V>(st: State<K, V>, maxSize: Size)
    requires Bijective(st)
    ensures Bijective(EvictWhile(st, maxSize).0)
    decreases |st.order|
  {
    if |st.index| > maxSize {
      IndexBoundedByOrder(st);
      EvictBackBijective(st);
      EvictWhileBijective(EvictBack(st), maxSize);
    }
  }

  /**
   * What `prune` does: no-op returning 0 when unbounded or below the hard
   * limit; otherwise it pops back nodes until `maxSize` keys are indexed
   * and returns how many nodes it popped.  Either way only a suffix of the
   * list and only index entries disappear.
   */
  lemma PruneEffect<K, V>(st: State<K, V>, maxSize: Size, elasticity: Size)
    requires Valid(st)
    ensures var (r, count) := Prune(st, maxSize, elasticity);
      && (maxSize == 0 || |st.index| < MaxAllowed(maxSize, elasticity) ==> r == st && count == 0)
      && (maxSize > 0 && |st.index| >= MaxAllowed(maxSize, elasticity) ==>
            |r.index| == (if |st.index| > maxSize then maxSize else |st.index|))
      && (maxSize > 0 && maxSize + elasticity < SIZE_LIMIT && |st.index| >= MaxAllowed(maxSize, elasticity) ==>
            |r.index| == maxSize)
      && |r.order| <= |st.order| && r.order == st.order[..|r.order|] && count == |st.order| - |r.order|
      && (forall k :: k in r.index ==> k in st.index && r.index[k] == st.index[k])
      && (Bijective(st) ==> Bijective(r))
  {
    if maxSize > 0 && |st.index| >= MaxAllowed(maxSize, elasticity) {
      EvictWhileSize(st, maxSize);
      EvictWhileSuffix(st, maxSize);
      EvictWhileShrinks(st, maxSize);
      if Bijective(st) {
        EvictWhileBijective(st, maxSize);
      }
    }
  }

  // ---------------------------------------------------------------------
  // Lemmas about insert
  // ---------------------------------------------------------------------

  /**
   * Inserting an indexed key replaces its value and moves its node to the
   * front; the index, hence the size, is unchanged and the other nodes
   * keep their relative order and contents.
   */
  lemma InsertExisting<K, V>(st: State<K, V>, k: K, v: V, maxSize: Size, elasticity: Size)
    requires Valid(st) && k in st.index
    ensures var r := Insert(st, k, v, maxSize, elasticity); var id := st.index[k];
      && r.index == st.index && |r.order| == |st.order|
      && r.order[0] == id && Without(r.order, id) == Without(st.order, id)
      && r.nodes[id] == Node(k, v)
      && (forall other :: other in st.nodes && other != id ==> r.nodes[other] == st.nodes[other])
      && Lookup(r, k) == Some(v)
      && (Bijective(st) ==> Bijective(r))
  {
  }

  /**
   * Inserting a new key puts `(k, v)` in a fresh node at the front and
   * indexes it, then prunes: if the key survives the prune it is still at
   * the front with value `v`.
   */
  lemma InsertNewAtFront<K, V>(st: State<K, V>, k: K, v: V, maxSize: Size, elasticity: Size)
    requires Valid(st) && k !in st.index
    ensures var r := Insert(st, k, v, maxSize, elasticity);
      k in r.index ==> r.index[k] == st.nextId && r.order[0] == st.nextId && Lookup(r, k) == Some(v)
  {
    var g := Grow(st, k, v);
    var id := st.nextId;
    if maxSize > 0 && |g.index| >= MaxAllowed(maxSize, elasticity) {
      var r := EvictWhile(g, maxSize).0;
      EvictWhileShrinks(g, maxSize);
      EvictWhileSuffix(g, maxSize);
      if k in r.index {
        assert r.index[k] == id && id in r.nodes;
        assert r.order[0] == g.order[0];
      }
    }
  }

  /** The new key survives the prune when the cache is unbounded, or has no orphans and `maxSize >= 1`. */
  lemma InsertNewSurvives<K, V>(st: State<K, V>, k: K, v: V, maxSize: Size, elasticity: Size)
    requires Valid(st) && k !in st.index
    requires maxSize == 0 || (Bijective(st) && maxSize >= 1)
    ensures Lookup(Insert(st, k, v, maxSize, elasticity), k) == Some(v)
  {
    var g := Grow(st, k, v);
    var id := st.nextId;
    if maxSize > 0 && |g.index| >= MaxAllowed(maxSize, elasticity) {
      var r := EvictWhile(g, maxSize).0;
      EvictWhileBijective(g, maxSize);
      EvictWhileSize(g, maxSize);
      EvictWhileSuffix(g, maxSize);
      EvictWhileShrinks(g, maxSize);
      BijectiveSizes(r);
      assert r.order[0] == g.order[0] == id;
      assert id in r.nodes && r.nodes[id] == g.nodes[id];
    }
    InsertNewAtFront(st, k, v, maxSize, elasticity);
  }

  /** Insert keeps an orphan-free cache orphan-free. */
  lemma InsertBijective<K, V>(st: State<K, V>, k: K, v: V, maxSize: Size, elasticity: Size)
    requires Bijective(st)
    ensures Bijective(Insert(st, k, v, maxSize, elasticity))
  {
    if k !in st.index {
      PruneEffect(Grow(st, k, v), maxSize, elasticity);
    }
  }

  /**
   * After inserting a new key into a bounded cache, either the hard limit
   * has not been reached or the index was pruned to at most `maxSize`
   * keys, exactly `maxSize` when `maxSize + elasticity` does not wrap.
   */
  lemma InsertCapacity<K, V>(st: State<K, V>, k: K, v: V, maxSize: Size, elasticity: Size)
    requires Valid(st) && k !in st.index && maxSize > 0
    ensures var r := Insert(st, k, v, maxSize, elasticity);
      && (|r.index| < MaxAllowed(maxSize, elasticity) || |r.index| <= maxSize)
      && (maxSize + elasticity < SIZE_LIMIT ==> |r.index| < maxSize + elasticity || |r.index| == maxSize)
  {
    PruneEffect(Grow(st, k, v), maxSize, elasticity);
  }

  /** Growing indexes the new key with its value, adds one key, and leaves the other keys alone. */
  lemma GrowLookups<K, V>(st: State<K, V>, k: K, v: V)
    requires Valid(st) && k !in st.index
    ensures var g := Grow(st, k, v);
      && Lookup(g, k) == Some(v) && |g.index| == |st.index| + 1
      && (forall other :: other != k ==> Lookup(g, other) == Lookup(st, other))
  {
    GrowLookupNew(st, k, v);
    forall other | other != k
      ensures Lookup(Grow(st, k, v), other) == Lookup(st, other)
    {
      GrowLookupOther(st, k, v, other);
    }
  }

  lemma GrowLookupNew<K, V>(st: State<K, V>, k: K, v: V)
    requires Valid(st) && k !in st.index
    ensures Lookup(Grow(st, k, v), k) == Some(v) && |Grow(st, k, v).index| == |st.index| + 1
  {
    assert Grow(st, k, v).index.Keys == st.index.Keys + {k};
  }

  lemma GrowLookupOther<K, V>(st: State<K, V>, k: K, v: V, other: K)
    requires Valid(st) && k !in st.index && other != k
    ensures Lookup(Grow(st, k, v), other) == Lookup(st, other)
  {
    if other in st.index {
      assert st.index[other] in st.nodes;
    }
  }

  /** Without orphans, popping the back node unindexes exactly its key and no other. */
  lemma EvictBackLookups<K, V>(st: State<K, V>)
    requires Bijective(st) && |st.order| > 0
    ensures var r := EvictBack(st); var lru := st.nodes[st.order[|st.order| - 1]].key;
      && Lookup(r, lru) == None
      && (forall other :: other != lru ==> Lookup(r, other) == Lookup(st, other))
  {
    EvictBackBijective(st);
    var r := EvictBack(st);
    var last := st.order[|st.order| - 1];
    forall other | other != st.nodes[last].key && other in st.index
      ensures other in r.index && r.index[other] == st.index[other] && r.nodes[st.index[other]] == st.nodes[st.index[other]]
    {
      assert st.index[other] != last;
    }
  }

  /**
   * A full cache without orphans, whose hard limit is `maxSize` or
   * `maxSize + 1`, pops exactly the back node, its least recently used
   * entry, when a new key is inserted.
   */
  lemma InsertAtLimitPopsBack<K, V>(st: State<K, V>, k: K, v: V, maxSize: Size, elasticity: Size)
    requires Bijective(st) && k !in st.index && maxSize > 0
    requires |st.index| == maxSize && MaxAllowed(maxSize, elasticity) <= maxSize + 1
    ensures |st.order| > 0
    ensures var g := Grow(st, k, v);
      && Bijective(g) && g.order[|g.order| - 1] == st.order[|st.order| - 1]
      && Insert(st, k, v, maxSize, elasticity) == EvictBack(g)
  {
    BijectiveSizes(st);
    var g := Grow(st, k, v);
    assert |g.index| == |st.index| + 1 by {
      assert g.index.Keys == st.index.Keys + {k};
    }
    EvictBackBijective(g);
    EvictWhileStep(g, maxSize);
  }

  /**
   * Inserting a new key into such a full cache evicts the least recently
   * used key, finds the new key, and leaves every other key's value alone.
   */
  lemma InsertEvictsLeastRecent<K, V>(st: State<K, V>, k: K, v: V, maxSize: Size, elasticity: Size)
    requires Bijective(st) && k !in st.index && maxSize > 0
    requires |st.index| == maxSize && MaxAllowed(maxSize, elasticity) <= maxSize + 1
    ensures |st.order| > 0
    ensures var r := Insert(st, k, v, maxSize, elasticity);
      var lru := st.nodes[st.order[|st.order| - 1]].key;
      && Lookup(r, lru) == None
      && (forall other :: other != lru && other != k ==> Lookup(r, other) == Lookup(st, other))
      && Bijective(r) && |r.index| == maxSize
  {
    InsertAtLimitPopsBack(st, k, v, maxSize, elasticity);
    var g := Grow(st, k, v);
    GrowLookups(st, k, v);
    EvictBackLookups(g);
    EvictBackBijective(g);
  }

  /** Every insert keeps the capacity policy: below the hard limit, or at most `maxSize` keys. */
  lemma InsertKeepsCapacity<K, V>(st: State<K, V>, k: K, v: V, maxSize: Size, elasticity: Size)
    requires Valid(st) && WithinCapacity(st, maxSize, elasticity)
    ensures WithinCapacity(Insert(st, k, v, maxSize, elasticity), maxSize, elasticity)
  {
    if k !in st.index && maxSize > 0 {
      InsertCapacity(st, k, v, maxSize, elasticity);
    }
  }

  // ---------------------------------------------------------------------
  // Lemmas about lookup, remove, clear and walk
  // ---------------------------------------------------------------------

  /**
   * A hit moves the node to the front and leaves the other nodes' order,
   * the arena and the index alone; a miss changes nothing.
   */
  lemma TryGetEffect<K, V>(st: State<K, V>, k: K)
    requires Valid(st)
    ensures var (r, found) := TryGet(st, k);
      && r.nodes == st.nodes && r.index == st.index && r.nextId == st.nextId
      && (k in st.index ==>
            found == Some(st.nodes[st.index[k]].value)
            && r.order[0] == st.index[k]
            && Without(r.order, st.index[k]) == Without(st.order, st.index[k]))
      && (k !in st.index ==> found == None && r == st)
      && (Bijective(st) ==> Bijective(r))
  {
  }

  /** `get` is `tryGet` with the miss reported as `KeyNotFound`; `getCopy` is `get`. */
  lemma GetAgreesWithTryGet<K, V>(st: State<K, V>, k: K)
    requires Valid(st)
    ensures var (r, found) := TryGet(st, k);
      && Get(st, k).0 == r
      && Get(st, k).1 == (if found.Some? then Ok(found.value) else Err(KeyNotFound))
  {
  }

  /**
   * `remove(k)` reports whether `k` was indexed; afterwards `k` is not
   * contained, the size dropped by one exactly when it was, and the list
   * is untouched, so a removed key leaves an orphan node behind.
   */
  lemma RemoveEffect<K, V>(st: State<K, V>, k: K)
    requires Valid(st)
    ensures var (r, removed) := Remove(st, k);
      && removed == Contains(st, k)
      && !Contains(r, k)
      && |r.index| == (if removed then |st.index| - 1 else |st.index|)
      && r.order == st.order && r.nodes == st.nodes
      && (forall other :: other != k ==> Lookup(r, other) == Lookup(st, other))
  {
    var r := Remove(st, k).0;
    if k in st.index {
      assert r.index.Keys == st.index.Keys - {k};
    } else {
      assert r.index == st.index;
    }
  }

  /**
   * Removing an indexed key always leaves its node in the list as an
   * orphan; removing a missing key keeps a cache without orphans so.
   */
  lemma RemoveOrphans<K, V>(st: State<K, V>, k: K)
    requires Valid(st)
    ensures var (r, removed) := Remove(st, k);
      && (removed ==> !Bijective(r))
      && (!removed && Bijective(st) ==> Bijective(r))
  {
    var r := Remove(st, k).0;
    if k in st.index {
      var id := st.index[k];
      assert id in r.nodes && r.nodes[id].key !in r.index;
    } else {
      assert r.index == st.index;
    }
  }

  /** Removing keeps the capacity policy, since it never adds a key. */
  lemma RemoveKeepsCapacity<K, V>(st: State<K, V>, k: K, maxSize: Size, elasticity: Size)
    requires Valid(st) && WithinCapacity(st, maxSize, elasticity)
    ensures WithinCapacity(Remove(st, k).0, maxSize, elasticity)
  {
    RemoveEffect(st, k);
  }

  /** `clear` leaves an empty, orphan-free cache whatever the state before. */
  lemma ClearEffect<K, V>(st: State<K, V>)
    requires Valid(st)
    ensures Bijective(Clear(st)) && |Clear(st).index| == 0 && Walk(Clear(st)) == []
    ensures forall k :: !Contains(Clear(st), k)
  {
  }

  /** The walk visits every indexed entry with its value. */
  lemma WalkCoversIndex<K, V>(st: State<K, V>)
    requires Valid(st)
    ensures forall k :: k in st.index ==> exists i :: 0 <= i < |Walk(st)| && Walk(st)[i] == Node(k, st.nodes[st.index[k]].value)
  {
    var w := Walk(st);
    forall k | k in st.index
      ensures exists i :: 0 <= i < |w| && w[i] == Node(k, st.nodes[st.index[k]].value)
    {
      var i :| 0 <= i < |st.order| && st.order[i] == st.index[k];
      assert w[i] == Node(k, st.nodes[st.index[k]].value);
    }
  }

  /** Without orphans the walk lists every key once, each with its current value. */
  lemma WalkWithoutOrphans<K, V>(st: State<K, V>)
    requires Bijective(st)
    ensures forall i :: 0 <= i < |Walk(st)| ==> Lookup(st, Walk(st)[i].key) == Some(Walk(st)[i].value)
    ensures forall i, j :: 0 <= i < j < |Walk(st)| ==> Walk(st)[i].key != Walk(st)[j].key
  {
    var w := Walk(st);
    forall i, j | 0 <= i < j < |w|
      ensures w[i].key != w[j].key
    {
      assert st.order[i] in st.nodes && st.order[j] in st.nodes;
      assert st.order[i] != st.order[j];
    }
  }
}
