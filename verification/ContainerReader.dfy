/** Block reads through a cache (internal/services/container_reader.go). */
module ContainerReader {
  import opened Arithmetic
  import opened Outcomes
  import opened Device

  /** The guarded state: cached blocks and the byte counter. */
  datatype BlockCache = BlockCache(blocks: map<nat, seq<byte>>, used: nat)
  {
    /** cacheBlock: a block that would exceed the limit first empties the cache. */
    function Insert(limit: nat, block: nat, data: seq<byte>): BlockCache {
      var base := if used + |data| > limit then BlockCache(map[], 0) else this;
      BlockCache(base.blocks[block := data], base.used + |data|)
    }

    /** Every cached block is the device's. */
    ghost predicate Faithful(d: Device) {
      forall n :: n in blocks ==> d.Readable(n) && blocks[n] == d.Block(n)
    }

    /** The counter is exactly the bytes held: every block holds `blockSize` bytes. */
    ghost predicate Exact(blockSize: nat) {
      used == Times(|blocks|, blockSize)
    }

    ghost predicate Bounded(limit: nat, blockSize: nat) {
      used <= Max(limit, blockSize)
    }
  }

  const EMPTY_CACHE := BlockCache(map[], 0)

  /** A block inserted is cached, alone if it would exceed the limit, else with all that were cached before. */
  lemma InsertCaches(c: BlockCache, limit: nat, block: nat, data: seq<byte>)
    ensures var c' := c.Insert(limit, block, data);
            && block in c'.blocks && c'.blocks[block] == data
            && (forall n :: n in c'.blocks <==> n == block || (n in c.blocks && c.used + |data| <= limit))
            && (forall n :: n in c'.blocks && n != block ==> c'.blocks[n] == c.blocks[n])
            && c'.used == if c.used + |data| > limit then |data| else c.used + |data|
  {}

  /** Inserting a block that is not cached keeps the counter exact. */
  lemma InsertExact(c: BlockCache, limit: nat, block: nat, data: seq<byte>)
    requires c.Exact(|data|) && block !in c.blocks
    ensures c.Insert(limit, block, data).Exact(|data|)
  {
    var c' := c.Insert(limit, block, data);
    if c.used + |data| > limit {
      assert c'.blocks.Keys == {block};
    }
  }

  /** Inserting a readable block keeps the cache faithful and the counter bounded, and exact if it was not cached. */
  lemma InsertKeeps(d: Device, c: BlockCache, limit: nat, block: nat)
    requires c.Faithful(d) && c.Bounded(limit, d.blockSize) && d.Readable(block)
    ensures var c' := c.Insert(limit, block, d.Block(block));
            && c'.Faithful(d) && c'.Bounded(limit, d.blockSize)
            && (c.Exact(d.blockSize) && block !in c.blocks ==> c'.Exact(d.blockSize))
  {
    if c.Exact(d.blockSize) && block !in c.blocks {
      InsertExact(c, limit, block, d.Block(block));
    }
  }

  /** What a block read returns, with no cache involved. */
  function BlockResult(d: Device, block: nat): Outcome<seq<byte>> {
    if d.Readable(block) then Ok(d.Block(block)) else Err
  }

  /** The cache after one uninterrupted block read. */
  function AfterRead(d: Device, limit: nat, c: BlockCache, block: nat): BlockCache {
    if block in c.blocks || !d.Readable(block) then c else c.Insert(limit, block, d.Block(block))
  }

  class ContainerReader {
    const device: Device
    const maxCacheSize: nat
    var blockCache: map<nat, seq<byte>>
    var currentCacheSize: nat

    function Cache(): BlockCache
      reads this
    {
      BlockCache(blockCache, currentCacheSize)
    }

    /** The cache is faithful, and its counter is exactly the bytes held. */
    ghost predicate Valid()
      reads this
    {
      && device.Valid()
      && Cache().Faithful(device)
      && Cache().Exact(device.blockSize)
      && Cache().Bounded(maxCacheSize, device.blockSize)
    }

    constructor (device: Device, maxCacheSize: nat)
      requires device.Valid()
      ensures Valid() && this.device == device && this.maxCacheSize == maxCacheSize && Cache() == EMPTY_CACHE
    {
      this.device, this.maxCacheSize := device, maxCacheSize;
      blockCache, currentCacheSize := map[], 0;
    }

    /** A cached read returns what an uncached one would. */
    method ReadBlock(blockNumber: u64) returns (r: Outcome<seq<byte>>)
      requires Valid()
      modifies this
      ensures Valid()
      ensures r == BlockResult(device, blockNumber)
      ensures Cache() == AfterRead(device, maxCacheSize, old(Cache()), blockNumber)
      ensures r.Ok? ==> blockNumber in blockCache && blockCache[blockNumber] == r.value
      ensures blockNumber in old(blockCache) || !r.Ok? ==> Cache() == old(Cache())
    {
      if blockNumber in blockCache {
        return Ok(blockCache[blockNumber]);
      }
      r := LoadBlock(blockNumber);
      if r.Ok? {
        InsertKeeps(device, Cache(), maxCacheSize, blockNumber);
        CacheBlock(blockNumber, r.value);
      }
    }

    /** The part of a block read that holds no lock: reads the device. */
    method LoadBlock(blockNumber: u64) returns (r: Outcome<seq<byte>>)
      requires device.Valid()
      ensures r == BlockResult(device, blockNumber)
    {
      var offset := U64(blockNumber * device.blockSize);
      TimesIsProduct(blockNumber, device.blockSize);
      if offset >= device.size {
        return Err;
      }
      var available := |device.bytes| - offset;  // ReadAt reads nothing from a negative or too large offset
      if available < device.blockSize {
        return Err;
      }
      r := Ok(device.bytes[offset..offset + device.blockSize]);
    }

    method CacheBlock(blockNumber: nat, data: seq<byte>)
      modifies this
      ensures Cache() == old(Cache()).Insert(maxCacheSize, blockNumber, data)
      ensures if old(currentCacheSize) + |data| > maxCacheSize then
                blockCache == map[blockNumber := data] && currentCacheSize == |data|
              else
                blockCache == old(blockCache)[blockNumber := data]
                && currentCacheSize == old(currentCacheSize) + |data|
    {
      if currentCacheSize + |data| > maxCacheSize {
        blockCache := map[];
        currentCacheSize := 0;
      }
      blockCache := blockCache[blockNumber := data];
      currentCacheSize := currentCacheSize + |data|;
    }

    method ClearCache()
      requires Valid()
      modifies this
      ensures Valid() && Cache() == EMPTY_CACHE
    {
      blockCache := map[];
      currentCacheSize := 0;
    }

    /** Consecutive blocks: their concatenation, or an error if one of them cannot be read. */
    method ReadBlocks(startBlock: u64, count: u64) returns (r: Outcome<seq<byte>>)
      requires Valid()
      modifies this
      ensures Valid()
      ensures r == BlocksResult(device, startBlock, count)
      ensures Cache() ==
                if r.Panic? then old(Cache()) else AfterRun(device, maxCacheSize, old(Cache()), startBlock, count)
    {
      if count == 0 {
        return Ok([]);
      }
      var totalSize := U64(count * device.blockSize);
      TimesIsProduct(count, device.blockSize);
      if totalSize >= TWO_TO_THE_63 {
        return Panic;  // make: capacity out of range
      }
      r := ReadRun(startBlock, count);
    }

    method ReadRun(startBlock: u64, count: u64) returns (r: Outcome<seq<byte>>)
      requires Valid()
      modifies this
      ensures Valid()
      ensures r == RunResult(device, startBlock, count)
      ensures Cache() == AfterRun(device, maxCacheSize, old(Cache()), startBlock, count)
    {
      var result: seq<byte> := [];
      var i := 0;
      while i < count
        invariant i <= count && Valid()
        invariant RunResult(device, startBlock, i) == Ok(result)
        invariant Cache() == AfterRun(device, maxCacheSize, old(Cache()), startBlock, i)
      {
        var block := ReadBlock(U64(startBlock + i));
        RunExtends(device, startBlock, i, count, result, block);
        if !block.Ok? {
          FailedRunStops(device, maxCacheSize, old(Cache()), startBlock, i + 1, count);
          return Err;
        }
        result := result + block.value;
        i := i + 1;
      }
      r := Ok(result);
    }
  }

  /** The concatenation of `count` consecutive blocks, if all can be read. */
  function RunResult(d: Device, start: nat, count: nat): (r: Outcome<seq<byte>>)
    ensures !r.Panic?
  {
    if count == 0 then Ok([])
    else
      var init := RunResult(d, start, count - 1);
      var last := BlockResult(d, U64(start + count - 1));
      if init.Ok? && last.Ok? then Ok(init.value + last.value) else Err
  }

  /** The cache after a run of reads, which stops at the first block that cannot be read. */
  function AfterRun(d: Device, limit: nat, c: BlockCache, start: nat, count: nat): BlockCache {
    if count == 0 then c
    else
      var before := AfterRun(d, limit, c, start, count - 1);
      if RunResult(d, start, count - 1).Ok? then AfterRead(d, limit, before, U64(start + count - 1)) else before
  }

  lemma {:induction false} FailedRunStops(d: Device, limit: nat, c: BlockCache, start: nat, n: nat, count: nat)
    requires n <= count && !RunResult(d, start, n).Ok?
    ensures !RunResult(d, start, count).Ok?
    ensures AfterRun(d, limit, c, start, count) == AfterRun(d, limit, c, start, n)
  {
    if n < count {
      FailedRunStops(d, limit, c, start, n, count - 1);
    }
  }

  function BlocksResult(d: Device, start: nat, count: nat): Outcome<seq<byte>> {
    if count > 0 && U64(d.Start(count)) >= TWO_TO_THE_63 then Panic else RunResult(d, start, count)
  }

  /** One more block: either the run grows by it, or the whole run fails. */
  lemma {:induction false} RunExtends(
    d: Device, start: nat, i: nat, count: nat, result: seq<byte>, b: Outcome<seq<byte>>)
    requires i < count && RunResult(d, start, i) == Ok(result) && b == BlockResult(d, U64(start + i))
    ensures b.Ok? ==> RunResult(d, start, i + 1) == Ok(result + b.value)
    ensures !b.Ok? ==> RunResult(d, start, count) == Err
    decreases count
  {
    if i + 1 < count && !b.Ok? {
      RunExtends(d, start, i, count - 1, result, b);
    }
  }

  // ---------------------------------------------------------------------------------------------------------------
  // Against the device itself, with no wrap-around
  // ---------------------------------------------------------------------------------------------------------------

  /** What reading a block should return. */
  function TrueResult(d: Device, block: nat): Outcome<seq<byte>> {
    if d.Holds(block) then Ok(d.bytes[d.Start(block)..d.Start(block) + d.blockSize]) else Err
  }

  /** What reading consecutive blocks should return: the contiguous slice, or an error if it is not all there. */
  function TrueBlocks(d: Device, start: nat, count: nat): Outcome<seq<byte>> {
    TimesSum(start, count, d.blockSize);
    if count == 0 then Ok([])
    else if d.Start(start + count - 1) < d.size && d.Start(start + count) <= |d.bytes| then
      Ok(d.bytes[d.Start(start)..d.Start(start + count)])
    else Err
  }

  /** A block is read correctly exactly when its offset does not wrap around 2^64 or the wrapped offset is rejected. */
  lemma BlockIsTrueIff(d: Device, block: nat)
    requires d.Valid()
    ensures BlockResult(d, block) == TrueResult(d, block) <==>
              block * d.blockSize < TWO_TO_THE_64 || !d.Readable(block)
  {
    TimesIsProduct(block, d.blockSize);
  }

  /** Block 2^52 of a one-block device with 4096-byte blocks does not exist, and is read as block 0. */
  lemma WrappedBlockIsRead(d: Device)
    requires d.Valid() && d.blockSize == 4096 && |d.bytes| == d.size == 4096
    ensures TrueResult(d, 0x10_0000_0000_0000) == Err && BlockResult(d, 0x10_0000_0000_0000) == Ok(d.bytes)
    ensures TrueBlocks(d, 0x10_0000_0000_0000, 1) == Err && BlocksResult(d, 0x10_0000_0000_0000, 1) == Ok(d.bytes)
  {
    var block := 0x10_0000_0000_0000;
    TimesIsProduct(block, 4096);
    TimesIsProduct(1, 4096);
    assert d.Start(block) == TWO_TO_THE_64 && d.Start(1) == 4096;
    assert d.BlockOffset(block) == 0 && d.bytes[0..4096] == d.bytes;
    assert BlockResult(d, block) == Ok(d.bytes);
    assert RunResult(d, block, 0) == Ok([]) && U64(block + 1 - 1) == block;
    assert [] + d.bytes == d.bytes;
  }

  /** A run that starts below 2^64 bytes never wraps: it fails first. */
  lemma {:induction false} RunIsTrue(d: Device, start: u64, count: nat)
    requires d.Valid() && d.Start(start) < TWO_TO_THE_64
    ensures RunResult(d, start, count) == TrueBlocks(d, start, count)
  {
    if count != 0 {
      RunIsTrue(d, start, count - 1);
      LastOfRun(d, start, count);
    }
  }

  /** If the run before its last block is there, that block is read correctly and extends the slice. */
  lemma LastOfRun(d: Device, start: u64, count: nat)
    requires d.Valid() && count > 0 && d.Start(start) < TWO_TO_THE_64
    ensures var before, block := TrueBlocks(d, start, count - 1), BlockResult(d, U64(start + count - 1));
            TrueBlocks(d, start, count) ==
              if before.Ok? && block.Ok? then Ok(before.value + block.value) else Err
  {
    var last := start as int + count - 1;
    TimesSum(start, count - 1, d.blockSize);
    if count > 1 {
      TimesMono(last - 1, last, d.blockSize);
    }
    if TrueBlocks(d, start, count - 1).Ok? {
      TimesAtLeast(last, d.blockSize);
      var from, init, all := d.Start(start), d.Start(last), d.Start(last + 1);
      if from <= init <= all <= |d.bytes| {
        assert d.bytes[from..init] + d.bytes[init..all] == d.bytes[from..all];
      }
    }
  }

  /** The number of the i-th block of a run, as 64-bit arithmetic computes it. */
  function Nth(start: nat, i: nat): u64 {
    U64(start + i)
  }

  /** Every block of the run has a wrapped offset that readers accept. */
  predicate AllAccepted(d: Device, start: nat, count: nat) {
    forall i :: 0 <= i < count ==> d.Readable(Nth(start, i))
  }

  lemma {:induction false} RunOkIff(d: Device, start: nat, count: nat)
    ensures RunResult(d, start, count).Ok? <==> AllAccepted(d, start, count)
  {
    if count != 0 {
      var last := count - 1;
      RunOkIff(d, start, last);
      assert U64(start + count - 1) == Nth(start, last);
    }
  }

  /** A run that starts at or beyond 2^64 bytes does not exist. */
  lemma RunBeyondAddresses(d: Device, start: nat, count: nat)
    requires d.Valid() && count > 0 && d.Start(start) >= TWO_TO_THE_64
    ensures TrueBlocks(d, start, count) == Err
  {
    TimesMono(start, start + count - 1, d.blockSize);
  }

  /**
    Consecutive blocks are read correctly exactly when the size of the result is accepted, and the first block lies
    below 2^64 bytes or one of the wrapped offsets is rejected.
   */
  lemma BlocksAreTrueIff(d: Device, start: u64, count: u64)
    requires d.Valid()
    ensures BlocksResult(d, start, count) == TrueBlocks(d, start, count) <==>
              count == 0 ||
              (&& U64(d.Start(count)) < TWO_TO_THE_63
               && (d.Start(start) < TWO_TO_THE_64 || !AllAccepted(d, start, count)))
  {
    if d.Start(start) < TWO_TO_THE_64 {
      RunIsTrue(d, start, count);
    } else if count > 0 {
      RunOkIff(d, start, count);
      RunBeyondAddresses(d, start, count);
    }
  }

  /** ReadBlocks inside the device reads the contiguous slice of its bytes. */
  lemma ReadBlocksIsSlice(d: Device, start: u64, count: u64)
    requires d.Valid() && d.size == |d.bytes| && (start + count) * d.blockSize <= |d.bytes|
    ensures start * d.blockSize <= (start + count) * d.blockSize
    ensures BlocksResult(d, start, count) == Ok(d.bytes[start * d.blockSize..(start + count) * d.blockSize])
  {
    TimesIsProduct(start, d.blockSize);
    TimesIsProduct(count, d.blockSize);
    TimesIsProduct(start + count, d.blockSize);
    TimesSum(start, count, d.blockSize);
    RunIsTrue(d, start, count);
    if count > 0 {
      TimesSum(start + count - 1, 1, d.blockSize);
      assert d.Start(1) == d.blockSize;
    } else {
      assert d.bytes[d.Start(start)..d.Start(start)] == [];
    }
  }

  /**
    A run that ends beyond the device succeeds exactly when it starts at or beyond 2^64 bytes and every one of its
    wrapped offsets is accepted. Otherwise it is an error or a panic, never a short result.
   */
  lemma ReadBlocksPastEnd(d: Device, start: u64, count: u64)
    requires d.Valid() && count > 0 && |d.bytes| < d.Start(start + count)
    ensures BlocksResult(d, start, count).Ok? <==>
              && U64(d.Start(count)) < TWO_TO_THE_63 && d.Start(start) >= TWO_TO_THE_64
              && AllAccepted(d, start, count)
  {
    RunOkIff(d, start, count);
    if d.Start(start) < TWO_TO_THE_64 {
      RunIsTrue(d, start, count);
    }
  }
}
