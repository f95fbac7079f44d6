/**
  Concurrent readers of one ContainerReader (internal/services/container_reader.go).

  A read is three steps, and any steps of other readers and cache clears can come between them: look in the cache
  under the read lock, read the device with no lock held, insert under the write lock.
 */
module ConcurrentReads {
  import opened Arithmetic
  import opened Outcomes
  import opened Device
  import opened ContainerReader

  datatype Phase =
    | Idle
    | Missed(block: nat)
    | Loaded(block: nat, data: seq<byte>)
    | Done(block: nat, result: Outcome<seq<byte>>)

  /** `repeats` counts the inserts, since the cache was last emptied, of a block that was already cached. */
  datatype State = State(cache: BlockCache, readers: map<nat, Phase>, repeats: nat)
  {
    function PhaseOf(reader: nat): Phase {
      if reader in readers then readers[reader] else Idle
    }
  }

  datatype Event = Check(reader: nat, block: nat) | Load(reader: nat) | Insert(reader: nat) | Clear

  const START := State(EMPTY_CACHE, map[], 0)

  /** One atomic step. A step its reader is not ready for changes nothing. */
  function Step(d: Device, limit: nat, s: State, e: Event): State {
    match e
    case Check(reader, block) =>
      var p := s.PhaseOf(reader);
      if p.Missed? || p.Loaded? then s
      else if block in s.cache.blocks then s.(readers := s.readers[reader := Done(block, Ok(s.cache.blocks[block]))])
      else s.(readers := s.readers[reader := Missed(block)])
    case Load(reader) =>
      var p := s.PhaseOf(reader);
      if !p.Missed? then s
      else if d.Readable(p.block) then s.(readers := s.readers[reader := Loaded(p.block, d.Block(p.block))])
      else s.(readers := s.readers[reader := Done(p.block, Err)])
    case Insert(reader) =>
      var p := s.PhaseOf(reader);
      if !p.Loaded? then s
      else Inserted(s, limit, reader, p.block, p.data)
    case Clear => State(EMPTY_CACHE, s.readers, 0)
  }

  function Inserted(s: State, limit: nat, reader: nat, block: nat, data: seq<byte>): State {
    State(
      s.cache.Insert(limit, block, data),
      s.readers[reader := Done(block, Ok(data))],
      if s.cache.used + |data| > limit then 0 else if block in s.cache.blocks then s.repeats + 1 else s.repeats)
  }

  function Run(d: Device, limit: nat, s: State, es: seq<Event>): State {
    if es == [] then s else Step(d, limit, Run(d, limit, s, es[..|es| - 1]), es[|es| - 1])
  }

  ghost predicate PhaseCorrect(d: Device, p: Phase) {
    match p
    case Idle => true
    case Missed(_) => true
    case Loaded(block, data) => d.Readable(block) && data == d.Block(block)
    case Done(block, result) => result == BlockResult(d, block)
  }

  ghost predicate Inv(d: Device, limit: nat, s: State) {
    && s.cache.Faithful(d)
    && s.cache.Bounded(limit, d.blockSize)
    && s.cache.used == Times(|s.cache.blocks| + s.repeats, d.blockSize)
    && forall r :: r in s.readers ==> PhaseCorrect(d, s.readers[r])
  }

  /** The counter after an insert: one block more, unless the cache was emptied first. */
  lemma InsertCounts(c: BlockCache, limit: nat, block: nat, data: seq<byte>, repeats: nat)
    requires c.used == Times(|c.blocks| + repeats, |data|)
    ensures var c' := c.Insert(limit, block, data);
            var repeats' := if c.used + |data| > limit then 0 else if block in c.blocks then repeats + 1 else repeats;
            c'.used == Times(|c'.blocks| + repeats', |data|)
  {
    var c' := c.Insert(limit, block, data);
    if c.used + |data| > limit {
      assert c'.blocks.Keys == {block};
    } else if block in c.blocks {
      assert c'.blocks.Keys == c.blocks.Keys;
    }
  }

  lemma InsertKeepsInv(d: Device, limit: nat, s: State, reader: nat, block: nat)
    requires Inv(d, limit, s) && d.Readable(block)
    ensures Inv(d, limit, Inserted(s, limit, reader, block, d.Block(block)))
  {
    InsertCounts(s.cache, limit, block, d.Block(block), s.repeats);
    InsertKeeps(d, s.cache, limit, block);
  }

  lemma CheckKeepsInv(d: Device, limit: nat, s: State, reader: nat, block: nat)
    requires Inv(d, limit, s)
    ensures Inv(d, limit, Step(d, limit, s, Check(reader, block)))
  {
    var s' := Step(d, limit, s, Check(reader, block));
    assert s'.cache == s.cache && s'.repeats == s.repeats;
  }

  lemma LoadKeepsInv(d: Device, limit: nat, s: State, reader: nat)
    requires Inv(d, limit, s)
    ensures Inv(d, limit, Step(d, limit, s, Load(reader)))
  {
    var s' := Step(d, limit, s, Load(reader));
    assert s'.cache == s.cache && s'.repeats == s.repeats;
  }

  lemma StepKeepsInv(d: Device, limit: nat, s: State, e: Event)
    requires Inv(d, limit, s)
    ensures Inv(d, limit, Step(d, limit, s, e))
  {
    match e
    case Check(reader, block) => CheckKeepsInv(d, limit, s, reader, block);
    case Load(reader) => LoadKeepsInv(d, limit, s, reader);
    case Insert(reader) =>
      if s.PhaseOf(reader).Loaded? {
        InsertKeepsInv(d, limit, s, reader, s.PhaseOf(reader).block);
      }
    case Clear =>
  }

  /**
    Under every interleaving: every cached block is the device's, every finished read returned what an uncached read
    would, the counter is within max(limit, block size), and it exceeds the bytes held by exactly one block per
    repeated insert.
   */
  lemma {:induction false} EveryInterleaving(d: Device, limit: nat, es: seq<Event>)
    ensures Inv(d, limit, Run(d, limit, START, es))
  {
    if es != [] {
      EveryInterleaving(d, limit, es[..|es| - 1]);
      StepKeepsInv(d, limit, Run(d, limit, START, es[..|es| - 1]), es[|es| - 1]);
    }
  }

  /** The counter never undercounts, and is exact if and only if no insert was repeated. */
  lemma CounterExactIff(d: Device, limit: nat, es: seq<Event>)
    requires d.Valid()
    ensures var s := Run(d, limit, START, es);
            && s.cache.used >= Times(|s.cache.blocks|, d.blockSize)
            && (s.cache.Exact(d.blockSize) <==> s.repeats == 0)
  {
    EveryInterleaving(d, limit, es);
    var s := Run(d, limit, START, es);
    TimesSum(|s.cache.blocks|, s.repeats, d.blockSize);
    TimesAtLeast(s.repeats, d.blockSize);
  }

  /**
    Under every interleaving, a finished read returned what the device holds if and only if the block's offset does not
    wrap around 2^64 or the wrapped offset was rejected.
   */
  lemma FinishedReadIsTrueIff(d: Device, limit: nat, es: seq<Event>, reader: nat)
    requires d.Valid() && Run(d, limit, START, es).PhaseOf(reader).Done?
    ensures var p := Run(d, limit, START, es).PhaseOf(reader);
            p.result == TrueResult(d, p.block) <==> p.block * d.blockSize < TWO_TO_THE_64 || !d.Readable(p.block)
  {
    EveryInterleaving(d, limit, es);
    BlockIsTrueIff(d, Run(d, limit, START, es).PhaseOf(reader).block);
  }

  /** Under every interleaving, a cached block is what the device holds if and only if its offset does not wrap. */
  lemma CachedBlockIsTrueIff(d: Device, limit: nat, es: seq<Event>, block: nat)
    requires d.Valid() && block in Run(d, limit, START, es).cache.blocks
    ensures Ok(Run(d, limit, START, es).cache.blocks[block]) == TrueResult(d, block) <==>
              block * d.blockSize < TWO_TO_THE_64
  {
    EveryInterleaving(d, limit, es);
    BlockIsTrueIff(d, block);
  }

  // ---------------------------------------------------------------------------------------------------------------
  // Readers that never fetch the same block at the same time
  // ---------------------------------------------------------------------------------------------------------------

  predicate InFlight(p: Phase) {
    p.Missed? || p.Loaded?
  }

  /** No two readers are between a miss and its insert on the same block. */
  ghost predicate FetchDistinct(s: State) {
    forall q, r :: q != r && InFlight(s.PhaseOf(q)) && InFlight(s.PhaseOf(r)) ==>
      s.PhaseOf(q).block != s.PhaseOf(r).block
  }

  /** No insert was repeated, and none is about to be. */
  ghost predicate NoRepeats(s: State) {
    s.repeats == 0 && forall r :: InFlight(s.PhaseOf(r)) ==> s.PhaseOf(r).block !in s.cache.blocks
  }

  lemma StepKeepsNoRepeats(d: Device, limit: nat, s: State, e: Event)
    requires NoRepeats(s) && FetchDistinct(s)
    ensures NoRepeats(Step(d, limit, s, e))
  {
    var s' := Step(d, limit, s, e);
    forall r | InFlight(s'.PhaseOf(r))
      ensures s'.PhaseOf(r).block !in s'.cache.blocks
    {
      if e.Clear? || r != e.reader {
        assert s'.PhaseOf(r) == s.PhaseOf(r);
      }
      if e.Insert? && s.PhaseOf(e.reader).Loaded? {
        assert r != e.reader && InFlight(s.PhaseOf(e.reader));
        assert s'.cache.blocks.Keys <= s.cache.blocks.Keys + {s.PhaseOf(e.reader).block};
      }
    }
  }

  /**
    If at no point of a run two readers fetch the same block, the counter is exact; as every prefix is such a run too,
    it is exact at every point.
   */
  lemma {:induction false} DistinctFetchesCountExactly(d: Device, limit: nat, es: seq<Event>)
    requires d.Valid()
    requires forall n :: 0 <= n < |es| ==> FetchDistinct(Run(d, limit, START, es[..n]))
    ensures Run(d, limit, START, es).cache.Exact(d.blockSize)
    ensures NoRepeats(Run(d, limit, START, es))
  {
    if es != [] {
      var init := es[..|es| - 1];
      assert forall n :: 0 <= n < |init| ==> init[..n] == es[..n];
      DistinctFetchesCountExactly(d, limit, init);
      StepKeepsNoRepeats(d, limit, Run(d, limit, START, init), es[|es| - 1]);
    }
    CounterExactIff(d, limit, es);
  }

  /** Once a reader has inserted a block, a check of that block finishes at once, with the block. */
  lemma InsertedBlockIsHit(d: Device, limit: nat, s: State, reader: nat, other: nat)
    requires s.PhaseOf(reader).Loaded? && (other == reader || !InFlight(s.PhaseOf(other)))
    ensures var p := s.PhaseOf(reader);
            var s' := Step(d, limit, s, Insert(reader));
            && s'.PhaseOf(reader) == Done(p.block, Ok(p.data))
            && Step(d, limit, s', Check(other, p.block)).PhaseOf(other) == Done(p.block, Ok(p.data))
  {
    InsertCaches(s.cache, limit, s.PhaseOf(reader).block, s.PhaseOf(reader).data);
  }

  /** After a clear no block is cached and the counter is zero, no reader has moved, and a check of any block misses. */
  lemma ClearForgets(d: Device, limit: nat, s: State, reader: nat, block: nat)
    requires !InFlight(s.PhaseOf(reader))
    ensures var s' := Step(d, limit, s, Clear);
            && s'.cache.blocks == map[] && s'.cache.used == 0 && s'.readers == s.readers
            && Step(d, limit, s', Check(reader, block)).PhaseOf(reader) == Missed(block)
  {}

  /** Uninterrupted, the three steps are one sequential read: its result, its cache, and no repeated insert. */
  lemma UninterruptedRead(d: Device, limit: nat, s: State, reader: nat, block: nat)
    requires Inv(d, limit, s) && !s.PhaseOf(reader).Missed? && !s.PhaseOf(reader).Loaded?
    ensures var s1 := Step(d, limit, s, Check(reader, block));
            var s2 := Step(d, limit, s1, Load(reader));
            var s3 := Step(d, limit, s2, Insert(reader));
            && s3.PhaseOf(reader) == Done(block, BlockResult(d, block))
            && s3.cache == AfterRead(d, limit, s.cache, block)
            && s3.repeats <= s.repeats
  {}

  /** Two readers that both miss before either inserts leave the counter one block too high. */
  lemma RaceOvercounts(d: Device, limit: nat, block: nat)
    requires d.Valid() && d.Readable(block) && limit >= 2 * d.blockSize
    ensures var s2 := Step(d, limit, Step(d, limit, START, Check(0, block)), Check(1, block));
            var s4 := Step(d, limit, Step(d, limit, s2, Load(0)), Load(1));
            var s6 := Step(d, limit, Step(d, limit, s4, Insert(0)), Insert(1));
            |s6.cache.blocks| == 1 && s6.cache.used == 2 * d.blockSize
  {
    var s2 := Step(d, limit, Step(d, limit, START, Check(0, block)), Check(1, block));
    assert s2.PhaseOf(0) == Missed(block) && s2.PhaseOf(1) == Missed(block);
    var s4 := Step(d, limit, Step(d, limit, s2, Load(0)), Load(1));
    assert s4.PhaseOf(0) == Loaded(block, d.Block(block)) && s4.PhaseOf(1) == Loaded(block, d.Block(block));
    var s6 := Step(d, limit, Step(d, limit, s4, Insert(0)), Insert(1));
    assert s6.cache.blocks.Keys == {block};
  }
}
