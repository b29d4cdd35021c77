/**
 * `lru17::Cache`: the eviction engine as an object whose methods update
 * the node arena, the recency list and the index in place.  Each method
 * is proved against the matching function of `LruModel`, and keeps the
 * object invariant: the index/list consistency and the capacity policy
 * (a bounded cache is below `maxSize + elasticity` keys or holds at most
 * `maxSize`).
 */
module Lru17 {
  import opened LruModel

  class Cache<K(==), V> {
    var nodes: map<NodeId, Node<K, V>>
    var order: seq<NodeId>
    var index: map<K, NodeId>
    var nextId: NodeId

    /** `getMaxSize()`: the soft limit; 0 means unbounded. */
    const maxSize: Size
    /** `getElasticity()`: the slack tolerated above `maxSize` before pruning. */
    const elasticity: Size

    /** The fields as one value of the model. */
    ghost function Model(): State<K, V>
      reads this
    {
      State(nodes, order, index, nextId)
    }

    ghost predicate Valid()
      reads this
    {
      LruModel.Valid(Model()) && WithinCapacity(Model(), maxSize, elasticity)
    }

    /** `Cache(maxSize = 64, elasticity = 10)`. */
    constructor (maxSize: Size := 64, elasticity: Size := 10)
      ensures Valid() && Model() == Initial()
      ensures this.maxSize == maxSize && this.elasticity == elasticity
    {
      this.maxSize := maxSize;
      this.elasticity := elasticity;
      nodes, order, index, nextId := map[], [], map[], 0;
    }

    /** `size()`: the number of indexed keys. */
    function Size(): (n: nat)
      reads this
      requires Valid()
      ensures n <= |order|
      ensures Bijective(Model()) ==> n == |order|
      ensures maxSize > 0 ==> n <= maxSize + elasticity
      ensures maxSize > 0 ==> n < maxSize + elasticity || n <= maxSize
    {
      SizeBounds(Model());
      |index|
    }

    /** `empty()`: no listed node is live; without orphans, the list is empty. */
    function Empty(): (b: bool)
      reads this
      requires Valid()
      ensures b <==> forall i :: 0 <= i < |order| ==> nodes[order[i]].key !in index
      ensures Bijective(Model()) ==> (b <==> order == [])
    {
      SizeBounds(Model());
      assert |index| != 0 ==> exists k :: k in index;
      assert forall k :: k in index ==> exists i :: 0 <= i < |order| && order[i] == index[k];
      |index| == 0
    }

    /** `contains(k)`: a pure membership test, with no effect on the list. */
    function Contains(k: K): (b: bool)
      reads this
      requires Valid()
      ensures b <==> Lookup(Model(), k).Some?
    {
      k in index
    }

    /** `getMaxAllowedSize()`: the hard limit, `maxSize + elasticity` as a `size_t`. */
    function MaxAllowedSize(): (r: Size)
      ensures maxSize + elasticity < SIZE_LIMIT ==> r == maxSize + elasticity
      ensures maxSize + elasticity >= SIZE_LIMIT ==> r == maxSize + elasticity - SIZE_LIMIT
    {
      MaxAllowed(maxSize, elasticity)
    }

    /** `cwalk`: the list contents, most recently used first, without touching the order. */
    function Walk(): (r: seq<Node<K, V>>)
      reads this
      requires Valid()
      ensures r == LruModel.Walk(Model())
    {
      var list, arena := order, nodes;
      seq(|list|, i requires 0 <= i < |list| && list[i] in arena => arena[list[i]])
    }

    /** `clear()`: empty the index and the list. */
    method Clear()
      requires Valid()
      modifies this
      ensures Valid() && Model() == LruModel.Clear(old(Model()))
      ensures Size() == 0 && Empty()
    {
      index := map[];
      order := [];
      nodes := map[];
    }

    /**
     * `insert(k, v)`: overwrite and promote a present key; otherwise put a
     * fresh node at the front, index it and prune.
     */
    method Insert(k: K, v: V)
      requires Valid()
      modifies this
      ensures Valid() && Model() == LruModel.Insert(old(Model()), k, v, maxSize, elasticity)
      ensures k in old(index) ==> index == old(index)
      ensures k in index ==> order[0] == index[k] && Lookup(Model(), k) == Some(v)
    {
      if k in index {
        Overwrite(k, v);
      } else {
        Add(k, v);
      }
    }

    /** insert's path for a present key: overwrite the value and splice the node to the front. */
    method Overwrite(k: K, v: V)
      requires Valid() && k in index
      modifies this
      ensures Valid() && Model() == LruModel.Insert(old(Model()), k, v, maxSize, elasticity)
      ensures index == old(index) && order[0] == index[k] && Lookup(Model(), k) == Some(v)
    {
      ghost var before := Model();
      var id := index[k];
      nodes := nodes[id := Node(k, v)];
      order := Promote(order, id);
      assert Model() == before.(nodes := before.nodes[id := Node(k, v)], order := Promote(before.order, id));
      InsertExisting(before, k, v, maxSize, elasticity);
    }

    /** insert's path for a new key: `emplace_front` a fresh node, index it, then prune. */
    method Add(k: K, v: V)
      requires Valid() && k !in index
      modifies this
      ensures Valid() && Model() == LruModel.Insert(old(Model()), k, v, maxSize, elasticity)
      ensures k in index ==> order[0] == index[k] && Lookup(Model(), k) == Some(v)
    {
      ghost var before := Model();
      PushFront(k, v);
      var popped := Prune();
      assert Model() == LruModel.Insert(before, k, v, maxSize, elasticity);
      InsertKeepsCapacity(before, k, v, maxSize, elasticity);
      InsertNewAtFront(before, k, v, maxSize, elasticity);
    }

    /** `keys_.emplace_front(k, v)` and `cache_[k] = keys_.begin()`. */
    method PushFront(k: K, v: V)
      requires LruModel.Valid(Model()) && k !in index
      modifies this
      ensures Model() == Grow(old(Model()), k, v)
    {
      var id := nextId;
      nodes := nodes[id := Node(k, v)];
      order := [id] + order;
      index := index[k := id];
      nextId := nextId + 1;
    }

    /**
     * `prune()`: when bounded and at the hard limit, pop nodes from the
     * back, erasing each one's key from the index, until `maxSize` keys
     * are indexed; returns the number of nodes popped.
     */
    method Prune() returns (count: nat)
      requires LruModel.Valid(Model())
      modifies this
      ensures LruModel.Valid(Model())
      ensures (Model(), count) == LruModel.Prune(old(Model()), maxSize, elasticity)
    {
      if maxSize == 0 || |index| < MaxAllowedSize() {
        return 0;
      }
      count := PopWhileOver();
    }

    /** prune's `while (cache_.size() > maxSize_)` loop. */
    method PopWhileOver() returns (count: nat)
      requires LruModel.Valid(Model())
      modifies this
      ensures Model() == EvictWhile(old(Model()), maxSize).0
      ensures count == EvictWhile(old(Model()), maxSize).1
    {
      count := 0;
      ghost var target := EvictWhile(Model(), maxSize);
      while |index| > maxSize
        invariant LruModel.Valid(Model())
        invariant EvictWhile(Model(), maxSize).0 == target.0
        invariant EvictWhile(Model(), maxSize).1 + count == target.1
        decreases |order|
      {
        EvictWhileStep(Model(), maxSize);
        PopBack();
        count := count + 1;
      }
    }

    /** One step of prune's loop: pop the back node and erase its key from the index. */
    method PopBack()
      requires LruModel.Valid(Model()) && |order| > 0
      modifies this
      ensures Model() == EvictBack(old(Model()))
    {
      var last := order[|order| - 1];
      index := index - {nodes[last].key};
      order := order[..|order| - 1];
      nodes := nodes - {last};
    }

    /** `tryGet(k)`: on a hit promote the node and return its value; on a miss change nothing. */
    method TryGet(k: K) returns (r: Option<V>)
      requires Valid()
      modifies this
      ensures Valid() && (Model(), r) == LruModel.TryGet(old(Model()), k)
      ensures r == old(Lookup(Model(), k))
      ensures r.Some? ==> order[0] == index[k]
    {
      if k !in index {
        return None;
      }
      ghost var before := Model();
      var id := index[k];
      order := Promote(order, id);
      r := Some(nodes[id].value);
      assert (Model(), r) == LruModel.TryGet(before, k);
    }

    /** `get(k)`: as `tryGet`, raising `KeyNotFound` on a miss. */
    method Get(k: K) returns (r: Result<V>)
      requires Valid()
      modifies this
      ensures Valid() && (Model(), r) == LruModel.Get(old(Model()), k)
      ensures r.Err? <==> old(Lookup(Model(), k)) == None
      ensures r.Ok? ==> Some(r.value) == old(Lookup(Model(), k)) && order[0] == index[k]
    {
      if k !in index {
        return Err(KeyNotFound);
      }
      ghost var before := Model();
      var id := index[k];
      order := Promote(order, id);
      r := Ok(nodes[id].value);
      assert (Model(), r) == LruModel.Get(before, k);
    }

    /** `getCopy(k)`: `get(k)`, returning the value by copy. */
    method GetCopy(k: K) returns (r: Result<V>)
      requires Valid()
      modifies this
      ensures Valid() && (Model(), r) == LruModel.Get(old(Model()), k)
    {
      r := Get(k);
    }

    /** `remove(k)`: unindex `k` and report whether it was indexed; the list is not touched. */
    method Remove(k: K) returns (removed: bool)
      requires Valid()
      modifies this
      ensures Valid() && (Model(), removed) == LruModel.Remove(old(Model()), k)
      ensures removed == old(Contains(k)) && !Contains(k) && order == old(order)
    {
      RemoveKeepsCapacity(Model(), k, maxSize, elasticity);
      if k !in index {
        assert index - {k} == index;
        return false;
      }
      index := index - {k};
      removed := true;
    }
  }
}
