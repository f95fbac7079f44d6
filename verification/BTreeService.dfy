/** Loading B-tree nodes through the two caches (internal/services/btree_service.go). */
module BTreeService {
  import opened Arithmetic
  import opened Outcomes
  import opened Device
  import opened ContainerReader
  import opened RecencyList
  import opened ObjectMapCache
  import opened ObjectMapTree
  import opened ObjectMapLookup
  import opened ObjectResolver
  import opened ResolvedVersions

  /** The node in the block at an address. */
  function NodeAt<Node>(d: Device, parse: seq<byte> -> Option<Node>, address: nat): Outcome<Node> {
    var block := BlockResult(d, U64(address));
    if !block.Ok? then Err
    else
      var node := parse(block.value);
      if node.Some? then Ok(node.value) else Err
  }

  /** The node an object identifier stands for at a fixed transaction, with no cache involved. */
  function Load<Node>(
    c: Container, t: Tree, xid: nat, d: Device, parse: seq<byte> -> Option<Node>, oid: nat): Outcome<Node>
  {
    var address := Uncached(c, t, oid, xid);
    if !address.Ok? then (if address.Err? then Err else Panic)
    else NodeAt(d, parse, address.value)
  }

  /** The same with blocks as the device holds them. */
  function TrueLoad<Node>(
    c: Container, t: Tree, xid: nat, d: Device, parse: seq<byte> -> Option<Node>, oid: nat): Outcome<Node>
  {
    var address := Uncached(c, t, oid, xid);
    if !address.Ok? then (if address.Err? then Err else Panic)
    else
      var block := TrueResult(d, U64(address.value));
      if !block.Ok? then Err
      else
        var node := parse(block.value);
        if node.Some? then Ok(node.value) else Err
  }

  /**
    A load is right if and only if the resolved block's offset does not wrap around 2^64, or its wrapped offset is
    rejected, or what is found there does not parse.
   */
  lemma LoadIsTrueIff<Node>(
    c: Container, t: Tree, xid: nat, d: Device, parse: seq<byte> -> Option<Node>, oid: nat)
    requires d.Valid()
    ensures Load(c, t, xid, d, parse, oid) == TrueLoad(c, t, xid, d, parse, oid) <==>
              var address := Uncached(c, t, oid, xid);
              address.Ok? ==>
                var block := U64(address.value);
                d.Start(block) < TWO_TO_THE_64 || !d.Readable(block) || parse(d.Block(block)).None?
  {
    var address := Uncached(c, t, oid, xid);
    if address.Ok? {
      TimesIsProduct(U64(address.value), d.blockSize);
      BlockIsTrueIff(d, U64(address.value));
    }
  }

  /** The order of the block level after a block was looked up and, if it was not cached, read and put. */
  ghost function FetchOrder(
    order: Keys, blocks: map<nat, seq<byte>>, budget: nat, block: nat, r: Outcome<seq<byte>>): Keys
  {
    if block in blocks then Touch(order, block)
    else if r.Ok? then Fit([block] + order, Sizes(blocks[block := r.value]), budget)
    else order
  }

  /** A successful fetch is one Lookup event of RecencyList's byte-budgeted runs. */
  lemma FetchIsByteStep(
    order: Keys, blocks: map<nat, seq<byte>>, budget: nat, block: nat, data: seq<byte>, size: map<nat, nat>)
    requires Mirrors(blocks, order) && SizedBy(blocks, size) && block in size && |data| == size[block]
    ensures FetchOrder(order, blocks, budget, block, Ok(data)) == ByteStep(order, size, budget, Lookup(block))
  {
    if block !in blocks {
      FitAgrees([block] + order, Sizes(blocks[block := data]), size, budget);
    }
  }

  /** Every cached block is what reading it gives. */
  ghost predicate BlocksFaithful(blocks: map<nat, seq<byte>>, d: Device) {
    forall b :: b in blocks ==> BlockResult(d, b) == Ok(blocks[b])
  }

  lemma AddedBlockFaithful(blocks: map<nat, seq<byte>>, d: Device, b: nat, data: seq<byte>, kept: map<nat, seq<byte>>)
    requires BlocksFaithful(blocks, d) && BlockResult(d, b) == Ok(data)
    requires forall k :: k in kept ==> k in blocks[b := data] && kept[k] == blocks[b := data][k]
    ensures BlocksFaithful(kept, d)
  {
    forall k | k in kept
      ensures BlockResult(d, k) == Ok(kept[k])
    {
      assert k == b || k in blocks;
    }
  }

  class BTreeService<Node> {
    const container: ContainerReader
    const resolver: BTreeObjectResolver
    const cache: ObjectMapBTreeCache<Node>
    const parse: seq<byte> -> Option<Node>
    ghost var loadedAt: map<nat, nat>  // the transaction each cached node was loaded for; the cache forgets it

    constructor (
      container: ContainerReader, resolver: BTreeObjectResolver, cache: ObjectMapBTreeCache<Node>,
      parse: seq<byte> -> Option<Node>)
      requires container.Valid() && resolver.Valid() && cache.Valid()
      requires cache.nodeCache == map[] && cache.blockCache == map[]
      ensures Valid()
      ensures this.container == container && this.resolver == resolver && this.cache == cache && this.parse == parse
    {
      this.container, this.resolver, this.cache, this.parse := container, resolver, cache, parse;
      loadedAt := map[];
    }

    /** The node of an object at a transaction, with no cache involved. */
    ghost function Meaning(xid: nat, oid: nat): Outcome<Node> {
      Load(resolver.container, resolver.tree, xid, container.device, parse, oid)
    }

    /** Every cached block is what reading it gives, and every cached node was right when it was loaded. */
    ghost predicate Valid()
      reads this, container, resolver, cache
    {
      && container.Valid() && resolver.Valid() && cache.Valid()
      && BlocksFaithful(cache.blockCache, container.device)
      && forall oid :: oid in cache.nodeCache ==>
           oid in loadedAt && Meaning(loadedAt[oid], oid) == Ok(cache.nodeCache[oid])
    }

    /** A block, from the block cache or else from the container. */
    method FetchBlock(address: u64) returns (r: Outcome<seq<byte>>)
      requires Valid()
      modifies container, cache`blockCache, cache`blockOrder, cache`currentBlockSize
      ensures Valid()
      ensures r == BlockResult(container.device, address)
      ensures cache.blockOrder ==
                FetchOrder(old(cache.blockOrder), old(cache.blockCache), cache.maxBlockSize, address, r)
      ensures r.Ok? && |r.value| <= cache.maxBlockSize ==>
                address in cache.blockCache && cache.blockCache[address] == r.value
    {
      var cached := cache.GetBlock(address);
      if cached.Some? {
        return Ok(cached.value);
      }
      r := container.ReadBlock(address);
      if r.Ok? {
        ghost var before, orderBefore := cache.blockCache, cache.blockOrder;
        cache.PutBlock(address, r.value);
        AddedBlockFaithful(before, container.device, address, r.value, cache.blockCache);
        if |r.value| <= cache.maxBlockSize {
          FittingStays(orderBefore, address, Sizes(before[address := r.value]), cache.maxBlockSize);
          assert address in cache.blockOrder;
        }
      }
    }

    /** A node cache miss: resolve the object, fetch its block, parse it. */
    method LoadNode(oid: nat, xid: nat) returns (r: Outcome<Node>)
      requires Valid()
      modifies container, resolver, cache`blockCache, cache`blockOrder, cache`currentBlockSize
      ensures Valid()
      ensures r == Meaning(xid, oid)
      ensures var address := Uncached(resolver.container, resolver.tree, oid, xid);
              cache.blockOrder ==
                if !address.Ok? then old(cache.blockOrder)
                else
                  FetchOrder(old(cache.blockOrder), old(cache.blockCache), cache.maxBlockSize, U64(address.value),
                             BlockResult(container.device, U64(address.value)))
    {
      var address := resolver.ResolveVirtualObject(oid, xid);
      if !address.Ok? {
        return if address.Err? then Err else Panic;
      }
      var block := FetchBlock(U64(address.value));
      if !block.Ok? {
        return Err;
      }
      var node := parse(block.value);
      r := if node.Some? then Ok(node.value) else Err;
    }

    /**
      GetRootNode and GetChildNode: get, and load and put on a miss. A miss returns what an uncached load would; a hit
      returns the node as of the transaction it was loaded for, whichever transaction is asked for. A successful call
      moves the node order by one Lookup event of RecencyList, a failing one leaves it.
     */
    method GetNode(oid: nat, xid: nat) returns (r: Outcome<Node>)
      requires Valid()
      modifies `loadedAt, container, resolver, cache
      ensures Valid()
      ensures r == Meaning(if oid in old(cache.nodeCache) then old(loadedAt)[oid] else xid, oid)
      ensures loadedAt == if oid in old(cache.nodeCache) || !r.Ok? then old(loadedAt) else old(loadedAt)[oid := xid]
      ensures cache.nodeOrder == if r.Ok? then Step(old(cache.nodeOrder), cache.maxNodes, Lookup(oid))
                                 else old(cache.nodeOrder)
      ensures cache.nodeCache.Keys <= old(cache.nodeCache).Keys + {oid}
      ensures !r.Ok? ==> cache.nodeCache == old(cache.nodeCache)
      ensures r.Ok? ==> oid in cache.nodeCache && cache.nodeCache[oid] == r.value
    {
      var cached := cache.GetNode(oid);
      if cached.Some? {
        return Ok(cached.value);
      }
      r := LoadNode(oid, xid);
      if r.Ok? {
        KeepNode(oid, xid, r.value);
      }
    }

    /** Puts a node just loaded into the node cache. */
    method KeepNode(oid: nat, xid: nat, node: Node)
      requires Valid() && oid !in cache.nodeCache && Meaning(xid, oid) == Ok(node)
      modifies `loadedAt, cache`nodeCache, cache`nodeOrder, cache`currentNodeCount
      ensures Valid() && loadedAt == old(loadedAt)[oid := xid]
      ensures cache.nodeOrder == Step(old(cache.nodeOrder), cache.maxNodes, Lookup(oid))
      ensures cache.nodeCache.Keys <= old(cache.nodeCache).Keys + {oid}
      ensures oid in cache.nodeCache && cache.nodeCache[oid] == node
    {
      cache.PutNode(oid, node);
      loadedAt := loadedAt[oid := xid];
      assert cache.nodeOrder[0] == oid;
    }

    method InvalidateCacheEntry(oid: nat)
      requires Valid()
      modifies cache
      ensures Valid()
      ensures cache.nodeOrder == Step(old(cache.nodeOrder), cache.maxNodes, Invalidate(oid))
      ensures cache.nodeCache == old(cache.nodeCache) - {oid}
    {
      cache.InvalidateNode(oid);
    }

    method ClearCache()
      requires Valid()
      modifies cache
      ensures Valid()
      ensures cache.nodeOrder == Step(old(cache.nodeOrder), cache.maxNodes, Clear)
      ensures cache.nodeCache == map[] && cache.blockCache == map[]
    {
      cache.ClearNodeCache();
      cache.ClearBlockCache();
    }

    // -- Runs at one transaction ----------------------------------------------------------------------------------

    /** Everything cached was loaded for this transaction. */
    ghost predicate AllAt(xid: nat)
      reads this, cache
    {
      forall oid :: oid in cache.nodeCache ==> oid in loadedAt && loadedAt[oid] == xid
    }

    /** Which objects can be loaded. */
    ghost function Loads(xid: nat): nat -> bool {
      (oid: nat) => Meaning(xid, oid).Ok?
    }

    /** One call; a lookup of an object that cannot be loaded leaves the order of the nodes alone. */
    method Perform(e: Event, xid: nat)
      requires Valid() && AllAt(xid)
      modifies `loadedAt, container, resolver, cache
      ensures Valid() && AllAt(xid)
      ensures cache.nodeOrder ==
                if e.Lookup? && !Loads(xid)(e.key) then old(cache.nodeOrder)
                else Step(old(cache.nodeOrder), cache.maxNodes, e)
    {
      match e {
        case Lookup(oid) => var node := GetNode(oid, xid);
        case Invalidate(oid) => InvalidateCacheEntry(oid);
        case Clear => ClearCache();
      }
    }

    /** A whole run of calls. */
    method Replay(events: seq<Event>, xid: nat)
      requires Valid() && cache.nodeOrder == []
      modifies `loadedAt, container, resolver, cache
      ensures Valid() && AllAt(xid)
      ensures cache.nodeOrder == Run(cache.maxNodes, Effective(events, Loads(xid)))
    {
      var i := 0;
      while i < |events|
        invariant i <= |events| && Valid() && AllAt(xid)
        invariant cache.nodeOrder == Run(cache.maxNodes, Effective(events[..i], Loads(xid)))
      {
        RunOneMore(cache.maxNodes, events, i, Loads(xid));
        Perform(events[i], xid);
        i := i + 1;
      }
      assert events[..i] == events;
    }
  }

  /**
    An object loaded at transaction x, which a hit at y returns, is what a load at y returns if and only if the newest
    version for y is reachable and its block holds the same node; in particular if it is still the one loaded.
   */
  lemma HitIsCurrentIff<Node>(
    c: Container, t: Tree, d: Device, parse: seq<byte> -> Option<Node>, oid: nat, x: nat, y: nat, e: Entry, f: Entry)
    requires AsksTree(c, OmapKey(oid, x)) && AsksTree(c, OmapKey(oid, y)) && Sorted(t)
    requires IsNewest(Entries(t), Capped(c, OmapKey(oid, x)), e) && IsNewest(Entries(t), Capped(c, OmapKey(oid, y)), f)
    requires Load(c, t, x, d, parse, oid).Ok?
    ensures Load(c, t, y, d, parse, oid) == Load(c, t, x, d, parse, oid) <==>
              && Reachable(t, Capped(c, OmapKey(oid, y)), f.key)
              && (f.addr == e.addr || NodeAt(d, parse, f.addr) == NodeAt(d, parse, e.addr))
  {
    SameAnswerIff(c, t, oid, x, y, e, f);
  }

  /** If the object has no version for y, a hit is not what a load returns. */
  lemma HitOutlivesObject<Node>(
    c: Container, t: Tree, d: Device, parse: seq<byte> -> Option<Node>, oid: nat, x: nat, y: nat)
    requires AsksTree(c, OmapKey(oid, y)) && Sorted(t)
    requires forall e :: e in Entries(t) ==> !Candidate(e.key, Capped(c, OmapKey(oid, y)))
    requires Load(c, t, x, d, parse, oid).Ok?
    ensures Load(c, t, y, d, parse, oid) == Err != Load(c, t, x, d, parse, oid)
  {
    ResolvedAbsent(c, t, OmapKey(oid, y));
  }

  /**
    Object 1 has version 5 only. It loads at transaction 5; at 7 the lookup misses it, and at 3 it does not exist. Once
    cached at 5 it is returned at all three.
   */
  lemma CacheForgetsTransaction<Node>(d: Device, parse: seq<byte> -> Option<Node>) returns (c: Container, t: Tree)
    requires d.Readable(100) && parse(d.Block(100)).Some?
    ensures Sorted(t) && IsNewest(Entries(t), OmapKey(1, 7), Entry(OmapKey(1, 5), 100))
    ensures Load(c, t, 5, d, parse, 1) == Ok(parse(d.Block(100)).value)
    ensures Load(c, t, 7, d, parse, 1) == Err
    ensures Load(c, t, 3, d, parse, 1) == Err
  {
    c := Container(Some(1), Some(Omap(2, 0, [])), map[]);
    t := LookupCanMissNewest();
    var e := Entry(OmapKey(1, 5), 100);
    LookupExactKey(t, e);
    forall f | f in Entries(t)
      ensures !Candidate(f.key, OmapKey(1, 3))
    {
      assert Entries(t) == [e, Entry(OmapKey(2, 3), 200)];
    }
    LookupAbsent(t, OmapKey(1, 3));
  }

  /** Two services over the same container that share no state. */
  ghost predicate Alike<Node(!new)>(a: BTreeService<Node>, b: BTreeService<Node>) {
    && a.resolver.container == b.resolver.container && a.resolver.tree == b.resolver.tree
    && a.container.device == b.container.device && a.parse == b.parse
    && a != b && a.container != b.container && a.resolver != b.resolver && a.cache != b.cache
  }

  /**
    Replay one run of calls at one transaction, failing loads included, on two such services: the recency list of the
    one with the smaller budget is a prefix of the other's, and what it still holds the other holds too, the same node.
   */
  method ReplayOnBoth<Node(!new)>(
    small: BTreeService<Node>, large: BTreeService<Node>, events: seq<Event>, xid: nat)
    requires small.Valid() && small.cache.nodeOrder == [] && large.Valid() && large.cache.nodeOrder == []
    requires Alike(small, large) && small.cache.maxNodes <= large.cache.maxNodes
    modifies small`loadedAt, small.container, small.resolver, small.cache
    modifies large`loadedAt, large.container, large.resolver, large.cache
    ensures small.Valid() && small.AllAt(xid) && large.Valid() && large.AllAt(xid)
    ensures small.cache.nodeOrder <= large.cache.nodeOrder
    ensures forall oid :: oid in small.cache.nodeCache ==>
              oid in large.cache.nodeCache && large.cache.nodeCache[oid] == small.cache.nodeCache[oid]
  {
    small.Replay(events, xid);
    large.Replay(events, xid);
    RunsIncluded(small, large, events, xid);
    ghost var meaning := (oid: nat) => small.Meaning(xid, oid);
    assert forall oid :: oid in large.cache.nodeCache ==> meaning(oid) == large.Meaning(xid, oid);
    HeldByBoth(small.cache.nodeCache, small.cache.nodeOrder, large.cache.nodeCache, large.cache.nodeOrder, meaning);
  }

  lemma RunsIncluded<Node(!new)>(small: BTreeService<Node>, large: BTreeService<Node>, events: seq<Event>, xid: nat)
    requires Alike(small, large) && small.cache.maxNodes <= large.cache.maxNodes
    ensures Run(small.cache.maxNodes, Effective(events, small.Loads(xid))) <=
              Run(large.cache.maxNodes, Effective(events, large.Loads(xid)))
  {
    forall oid: nat
      ensures small.Loads(xid)(oid) == large.Loads(xid)(oid)
    {
      assert small.Meaning(xid, oid) == large.Meaning(xid, oid);
    }
    EffectiveAgrees(events, small.Loads(xid), large.Loads(xid));
    Inclusion(small.cache.maxNodes, large.cache.maxNodes, Effective(events, small.Loads(xid)));
  }

  /** Of two caches that mirror such lists, the larger holds what the smaller holds. */
  lemma HeldByBoth<Node>(
    small: map<nat, Node>, smallOrder: Keys, large: map<nat, Node>, largeOrder: Keys, meaning: nat -> Outcome<Node>)
    requires Mirrors(small, smallOrder) && Mirrors(large, largeOrder) && smallOrder <= largeOrder
    requires forall oid :: oid in small ==> meaning(oid) == Ok(small[oid])
    requires forall oid :: oid in large ==> meaning(oid) == Ok(large[oid])
    ensures forall oid :: oid in small ==> oid in large && large[oid] == small[oid]
  {
    forall oid | oid in small
      ensures oid in large && large[oid] == small[oid]
    {
      assert oid in smallOrder;
      assert oid in largeOrder;
    }
  }
}
