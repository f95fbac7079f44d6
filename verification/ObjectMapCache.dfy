/** The two-level LRU cache of B-tree nodes and raw blocks (internal/services/object_map_btree_cache.go). */
module ObjectMapCache {
  import opened Outcomes
  import opened RecencyList

  const DEFAULT_MAX_NODES: nat := 1000
  const DEFAULT_MAX_BLOCK_SIZE: nat := 100 * 1024 * 1024

  /** A map and a recency list with the same keys, each once. */
  ghost predicate Mirrors<V>(m: map<nat, V>, order: Keys) {
    && Distinct(order)
    && forall k :: k in m <==> k in order
  }

  function Sizes(m: map<nat, seq<byte>>): map<nat, nat> {
    map k | k in m :: |m[k]|
  }

  ghost function Restrict<V>(m: map<nat, V>, keys: Keys): map<nat, V> {
    map k | k in m && k in keys :: m[k]
  }

  /** The bytes held depend only on the sizes of the keys listed. */
  lemma {:induction false} TotalAgrees(s: Keys, a: map<nat, nat>, b: map<nat, nat>)
    requires forall k :: k in s ==> (k in a <==> k in b) && (k in a ==> a[k] == b[k])
    ensures Total(s, a) == Total(s, b)
  {
    if s != [] {
      TotalAgrees(s[..|s| - 1], a, b);
    }
  }

  lemma {:induction false} TotalOfFront(s: Keys, k: nat, size: map<nat, nat>)
    requires k in size
    ensures Total([k] + s, size) == size[k] + Total(s, size)
  {
    var all := [k] + s;
    if s == [] {
      assert all[..0] == [];
    } else {
      TotalOfFront(s[..|s| - 1], k, size);
      assert all[..|all| - 1] == [k] + s[..|s| - 1];
    }
  }

  lemma {:induction false} TotalOfWithout(s: Keys, k: nat, size: map<nat, nat>)
    requires Distinct(s) && k in s && k in size
    requires forall x :: x in s ==> x in size
    ensures Total(Without(s, k), size) == Total(s, size) - size[k]
  {
    if s[0] == k {
      WithoutAbsent(s[1..], k);
    } else {
      TotalOfWithout(s[1..], k, size);
      TotalOfFront(Without(s[1..], k), s[0], size);
    }
    TotalOfFront(s[1..], s[0], size);
    assert s == [s[0]] + s[1..];
  }

  /** What fits depends only on the sizes of the keys listed. */
  lemma {:induction false} FitAgrees(s: Keys, a: map<nat, nat>, b: map<nat, nat>, budget: nat)
    requires forall k :: k in s ==> (k in a <==> k in b) && (k in a ==> a[k] == b[k])
    ensures Fit(s, a, budget) == Fit(s, b, budget)
  {
    TotalAgrees(s, a, b);
    if s != [] {
      FitAgrees(s[..|s| - 1], a, b, budget);
    }
  }

  /** The blocks held have the sizes given. */
  ghost predicate SizedBy(blocks: map<nat, seq<byte>>, size: map<nat, nat>) {
    forall k :: k in blocks ==> k in size && |blocks[k]| == size[k]
  }

  /** Getting a block, and putting it if that missed, is one Lookup event of RecencyList's byte-budgeted runs. */
  method GetOrPutBlock<Node>(
    cache: ObjectMapBTreeCache<Node>, blockNum: nat, data: seq<byte>, ghost size: map<nat, nat>)
    requires cache.Valid() && SizedBy(cache.blockCache, size)
    requires blockNum in size && |data| == size[blockNum]
    modifies cache`blockCache, cache`blockOrder, cache`currentBlockSize
    ensures cache.Valid() && SizedBy(cache.blockCache, size)
    ensures cache.blockOrder == ByteStep(old(cache.blockOrder), size, cache.maxBlockSize, Lookup(blockNum))
  {
    ghost var order, all := cache.blockOrder, cache.blockCache[blockNum := data];
    var cached := cache.GetBlock(blockNum);
    if cached.None? {
      FitAgrees([blockNum] + order, Sizes(all), size, cache.maxBlockSize);
      cache.PutBlock(blockNum, data);
    }
  }

  /** Dropping a block drops its bytes. */
  lemma DropBlock(order: Keys, cache: map<nat, seq<byte>>, k: nat)
    requires Mirrors(cache, order) && k in cache
    ensures Mirrors(cache - {k}, Without(order, k))
    ensures Total(Without(order, k), Sizes(cache - {k})) == Total(order, Sizes(cache)) - |cache[k]|
  {
    WithoutDistinct(order, k);
    TotalOfWithout(order, k, Sizes(cache));
    TotalAgrees(Without(order, k), Sizes(cache), Sizes(cache - {k}));
  }

  /** Moving a block to the front keeps the bytes held. */
  lemma TouchKeepsTotal(order: Keys, cache: map<nat, seq<byte>>, k: nat)
    requires Mirrors(cache, order) && k in cache
    ensures Mirrors(cache, Touch(order, k))
    ensures Total(Touch(order, k), Sizes(cache)) == Total(order, Sizes(cache))
  {
    WithoutDistinct(order, k);
    TotalOfWithout(order, k, Sizes(cache));
    TotalOfFront(Without(order, k), k, Sizes(cache));
  }

  /** Adding a block in front adds its bytes. */
  lemma BlockAdded(order: Keys, cache: map<nat, seq<byte>>, k: nat, data: seq<byte>)
    requires Mirrors(cache, order) && k !in cache
    ensures var all := cache[k := data];
            && Mirrors(all, [k] + order) && all == Restrict(all, [k] + order)
            && Total([k] + order, Sizes(all)) == Total(order, Sizes(cache)) + |data|
  {
    var all := cache[k := data];
    TotalAgrees(order, Sizes(cache), Sizes(all));
    TotalOfFront(order, k, Sizes(all));
  }

  /** Evicting the last key of a list. */
  lemma EvictLast<V>(order: Keys, cache: map<nat, V>, all: map<nat, V>)
    requires Mirrors(cache, order) && order != [] && cache == Restrict(all, order)
    ensures var last := order[|order| - 1];
            && Mirrors(cache - {last}, order[..|order| - 1])
            && cache - {last} == Restrict(all, order[..|order| - 1])
  {}

  class ObjectMapBTreeCache<Node> {
    var nodeCache: map<nat, Node>
    var nodeOrder: Keys  // most recently used first
    var currentNodeCount: nat
    const maxNodes: nat

    var blockCache: map<nat, seq<byte>>
    var blockOrder: Keys
    var currentBlockSize: nat
    const maxBlockSize: nat

    /** In every reachable state both levels mirror their lists, and both counters are exact and within budget. */
    ghost predicate Valid()
      reads this
    {
      && maxNodes > 0
      && Mirrors(nodeCache, nodeOrder)
      && currentNodeCount == |nodeOrder| <= maxNodes
      && Mirrors(blockCache, blockOrder)
      && currentBlockSize == Total(blockOrder, Sizes(blockCache)) <= maxBlockSize
    }

    constructor (configMaxNodes: int, configMaxBlockSize: int)
      ensures Valid() && nodeOrder == [] && blockOrder == []
      ensures maxNodes == if configMaxNodes <= 0 then 1000 else configMaxNodes
      ensures maxBlockSize == if configMaxBlockSize <= 0 then 104_857_600 else configMaxBlockSize
    {
      maxNodes := if configMaxNodes <= 0 then DEFAULT_MAX_NODES else configMaxNodes;
      maxBlockSize := if configMaxBlockSize <= 0 then DEFAULT_MAX_BLOCK_SIZE else configMaxBlockSize;
      nodeCache, nodeOrder, currentNodeCount := map[], [], 0;
      blockCache, blockOrder, currentBlockSize := map[], [], 0;
    }

    // -- Node level -----------------------------------------------------------------------------------------------

    method GetNode(oid: nat) returns (r: Option<Node>)
      requires Valid()
      modifies `nodeOrder
      ensures Valid()
      ensures r == if oid in nodeCache then Some(nodeCache[oid]) else None
      ensures nodeOrder == if oid in nodeCache then Touch(old(nodeOrder), oid) else old(nodeOrder)
    {
      if oid in nodeCache {
        WithoutDistinct(nodeOrder, oid);
        nodeOrder := [oid] + Without(nodeOrder, oid);
        return Some(nodeCache[oid]);
      }
      r := None;
    }

    /** A new node goes to the front and the least recently used one may leave; a cached one is only moved. */
    method PutNode(oid: nat, node: Node)
      requires Valid()
      modifies `nodeCache, `nodeOrder, `currentNodeCount
      ensures Valid()
      ensures nodeOrder == Access(old(nodeOrder), maxNodes, oid)
      ensures nodeCache == if oid in old(nodeCache) then old(nodeCache)
                           else Restrict(old(nodeCache)[oid := node], nodeOrder)
    {
      if oid in nodeCache {
        WithoutDistinct(nodeOrder, oid);
        nodeOrder := [oid] + Without(nodeOrder, oid);
        return;
      }
      ghost var all, allNodes := [oid] + nodeOrder, nodeCache[oid := node];
      nodeOrder := [oid] + nodeOrder;
      nodeCache := nodeCache[oid := node];
      currentNodeCount := currentNodeCount + 1;
      while currentNodeCount > maxNodes && |nodeOrder| > 0
        invariant Mirrors(nodeCache, nodeOrder) && nodeCache == Restrict(allNodes, nodeOrder)
        invariant currentNodeCount == |nodeOrder|
        invariant |nodeOrder| <= |all| && nodeOrder == all[..|nodeOrder|] && |nodeOrder| >= Min(maxNodes, |all|)
        decreases |nodeOrder|
      {
        EvictOldestNode(allNodes);
      }
    }

    method EvictOldestNode(ghost allNodes: map<nat, Node>)
      requires Mirrors(nodeCache, nodeOrder) && nodeOrder != [] && nodeCache == Restrict(allNodes, nodeOrder)
      requires currentNodeCount == |nodeOrder|
      modifies `nodeCache, `nodeOrder, `currentNodeCount
      ensures Mirrors(nodeCache, nodeOrder) && nodeCache == Restrict(allNodes, nodeOrder)
      ensures nodeOrder == old(nodeOrder)[..|old(nodeOrder)| - 1]
      ensures currentNodeCount == |nodeOrder|
    {
      EvictLast(nodeOrder, nodeCache, allNodes);
      var oldest := nodeOrder[|nodeOrder| - 1];
      nodeCache := nodeCache - {oldest};
      nodeOrder := nodeOrder[..|nodeOrder| - 1];
      currentNodeCount := currentNodeCount - 1;
    }

    method InvalidateNode(oid: nat)
      requires Valid()
      modifies `nodeCache, `nodeOrder, `currentNodeCount
      ensures Valid()
      ensures nodeOrder == Without(old(nodeOrder), oid) && nodeCache == old(nodeCache) - {oid}
    {
      WithoutDistinct(nodeOrder, oid);
      if oid in nodeCache {
        nodeCache := nodeCache - {oid};
        nodeOrder := Without(nodeOrder, oid);
        currentNodeCount := currentNodeCount - 1;
      } else {
        WithoutAbsent(nodeOrder, oid);
      }
    }

    method ClearNodeCache()
      requires Valid()
      modifies `nodeCache, `nodeOrder, `currentNodeCount
      ensures Valid() && nodeOrder == [] && nodeCache == map[]
    {
      nodeCache, nodeOrder, currentNodeCount := map[], [], 0;
    }

    // -- Block level ----------------------------------------------------------------------------------------------

    method GetBlock(blockNum: nat) returns (r: Option<seq<byte>>)
      requires Valid()
      modifies `blockOrder
      ensures Valid()
      ensures r == if blockNum in blockCache then Some(blockCache[blockNum]) else None
      ensures blockOrder == if blockNum in blockCache then Touch(old(blockOrder), blockNum) else old(blockOrder)
    {
      if blockNum in blockCache {
        TouchBlock(blockNum);
        return Some(blockCache[blockNum]);
      }
      r := None;
    }

    method TouchBlock(blockNum: nat)
      requires Valid() && blockNum in blockCache
      modifies `blockOrder
      ensures Valid() && blockOrder == Touch(old(blockOrder), blockNum)
    {
      TouchKeepsTotal(blockOrder, blockCache, blockNum);
      blockOrder := [blockNum] + Without(blockOrder, blockNum);
    }

    /** A new block keeps the longest most-recent prefix that fits the byte budget; a cached one is only moved. */
    method PutBlock(blockNum: nat, data: seq<byte>)
      requires Valid()
      modifies `blockCache, `blockOrder, `currentBlockSize
      ensures Valid()
      ensures var all := old(blockCache)[blockNum := data];
              if blockNum in old(blockCache) then
                blockOrder == Touch(old(blockOrder), blockNum) && blockCache == old(blockCache)
              else
                && blockOrder == Fit([blockNum] + old(blockOrder), Sizes(all), maxBlockSize)
                && blockCache == Restrict(all, blockOrder)
    {
      if blockNum in blockCache {
        TouchBlock(blockNum);
        return;
      }
      ghost var all := blockCache[blockNum := data];
      BlockAdded(blockOrder, blockCache, blockNum, data);
      blockOrder := [blockNum] + blockOrder;
      blockCache := blockCache[blockNum := data];
      currentBlockSize := currentBlockSize + |data|;
      while currentBlockSize > maxBlockSize && |blockOrder| > 0
        invariant Mirrors(blockCache, blockOrder) && blockCache == Restrict(all, blockOrder)
        invariant currentBlockSize == Total(blockOrder, Sizes(all))
        invariant Fit(blockOrder, Sizes(all), maxBlockSize) ==
                    Fit([blockNum] + old(blockOrder), Sizes(all), maxBlockSize)
        decreases |blockOrder|
      {
        EvictOldestBlock(all);
      }
      TotalAgrees(blockOrder, Sizes(all), Sizes(blockCache));
    }

    method EvictOldestBlock(ghost all: map<nat, seq<byte>>)
      requires Mirrors(blockCache, blockOrder) && blockOrder != [] && blockCache == Restrict(all, blockOrder)
      requires currentBlockSize == Total(blockOrder, Sizes(all))
      modifies `blockCache, `blockOrder, `currentBlockSize
      ensures Mirrors(blockCache, blockOrder) && blockCache == Restrict(all, blockOrder)
      ensures blockOrder == old(blockOrder)[..|old(blockOrder)| - 1]
      ensures currentBlockSize == Total(blockOrder, Sizes(all))
    {
      EvictLast(blockOrder, blockCache, all);
      var oldest := blockOrder[|blockOrder| - 1];
      currentBlockSize := currentBlockSize - |blockCache[oldest]|;
      blockCache := blockCache - {oldest};
      blockOrder := blockOrder[..|blockOrder| - 1];
    }

    method InvalidateBlock(blockNum: nat)
      requires Valid()
      modifies `blockCache, `blockOrder, `currentBlockSize
      ensures Valid()
      ensures blockOrder == Without(old(blockOrder), blockNum) && blockCache == old(blockCache) - {blockNum}
    {
      if blockNum in blockCache {
        DropBlock(blockOrder, blockCache, blockNum);
        var size := |blockCache[blockNum]|;
        blockCache := blockCache - {blockNum};
        blockOrder := Without(blockOrder, blockNum);
        assert currentBlockSize - size == Total(blockOrder, Sizes(blockCache));
        currentBlockSize := currentBlockSize - size;
      } else {
        WithoutAbsent(blockOrder, blockNum);
      }
    }

    method ClearBlockCache()
      requires Valid()
      modifies `blockCache, `blockOrder, `currentBlockSize
      ensures Valid() && blockOrder == [] && blockCache == map[]
    {
      blockCache, blockOrder, currentBlockSize := map[], [], 0;
    }

    method Clear()
      requires Valid()
      modifies `nodeCache, `nodeOrder, `currentNodeCount, `blockCache, `blockOrder, `currentBlockSize
      ensures Valid() && nodeOrder == [] && nodeCache == map[] && blockOrder == [] && blockCache == map[]
    {
      nodeCache, nodeOrder, currentNodeCount := map[], [], 0;
      blockCache, blockOrder, currentBlockSize := map[], [], 0;
    }
  }
}
