/**
  Allocation zones and chunk information of the space manager: parsing, and the serialisers that feed sub-readers
  (internal/parsers/space_manager).
 */
module SpaceManager {
  import opened Outcomes
  import opened ByteOrder
  import opened Buffers

  type u16 = x: int | 0 <= x < 0x1_0000
  type u32 = x: int | 0 <= x < 0x1_0000_0000

  const DEVICES := 2
  const ZONES := 8
  const PREVIOUS := 7
  const ZONE_SIZE := 136
  const CHUNK_SIZE := 32
  const TABLE_SIZE := 2176  // devices * zones * bytes a zone

  datatype Bounds = Bounds(start: u64, end: u64)

  datatype RawZone = Zone(current: Bounds, previous: seq<Bounds>, id: u16, previousIndex: u16, reserved: u32)

  const BLANK := Zone(Bounds(0, 0), seq(PREVIOUS, _ => Bounds(0, 0)), 0, 0, 0)

  type Zone = z: RawZone | |z.previous| == PREVIOUS witness BLANK

  /** SdzAllocationZones[device][zone]. */
  type Table = t: seq<seq<Zone>> | |t| == DEVICES && forall d :: 0 <= d < DEVICES ==> |t[d]| == ZONES
    witness seq(DEVICES, _ => seq(ZONES, _ => BLANK))

  datatype Chunk = Chunk(xid: u64, addr: u64, blockCount: u32, freeCount: u32, bitmapAddr: u64)

  // ---------------------------------------------------------------------------------------------------------------
  // Fields
  // ---------------------------------------------------------------------------------------------------------------

  lemma GetFits(e: Endian, s: seq<byte>)
    ensures Get(e, s) < Pow256(|s|)
    ensures Pow256(2) == 0x1_0000 && Pow256(4) == 0x1_0000_0000 && Pow256(8) == 0x1_0000_0000_0000_0000
  {
    FromLeBound(s);
    FromLeBound(Reverse(s));
    assert Pow256(2) == 0x1_0000;
    assert Pow256(4) == 0x1_0000_0000;
    assert Pow256(6) == 0x1_0000_0000_0000;
  }

  function Uint16(e: Endian, s: seq<byte>, offset: nat): u16
    requires offset + 2 <= |s|
  {
    GetFits(e, s[offset..offset + 2]);
    Get(e, s[offset..offset + 2])
  }

  function Uint32(e: Endian, s: seq<byte>, offset: nat): u32
    requires offset + 4 <= |s|
  {
    GetFits(e, s[offset..offset + 4]);
    Get(e, s[offset..offset + 4])
  }

  function Uint64(e: Endian, s: seq<byte>, offset: nat): u64
    requires offset + 8 <= |s|
  {
    GetFits(e, s[offset..offset + 8]);
    Get(e, s[offset..offset + 8])
  }

  /** A field written at an offset reads back. */
  lemma ReadsBack(e: Endian, s: seq<byte>, offset: nat, width: nat, v: nat)
    requires width == 2 || width == 4 || width == 8
    requires v < Pow256(width) && Holds(s, offset, Put(e, width, v))
    ensures width == 2 ==> Uint16(e, s, offset) == v
    ensures width == 4 ==> Uint32(e, s, offset) == v
    ensures width == 8 ==> Uint64(e, s, offset) == v
  {
    GetOfPut(e, width, v);
  }

  /** PutUint16/32/64 into a buffer. */
  method PutUint(e: Endian, data: array<byte>, offset: nat, width: nat, v: nat)
    requires offset + width <= data.Length
    modifies data
    ensures Appended(old(data[..]), data[..], offset, Put(e, width, v))
  {
    var bytes := Put(e, width, v);
    forall i | 0 <= i < width {
      data[offset + i] := bytes[i];
    }
  }

  // ---------------------------------------------------------------------------------------------------------------
  // Layouts
  // ---------------------------------------------------------------------------------------------------------------

  function BoundsBytes(e: Endian, b: Bounds): (s: seq<byte>)
    ensures |s| == 16
  {
    Put(e, 8, b.start) + Put(e, 8, b.end)
  }

  function TailBytes(e: Endian, z: Zone): (s: seq<byte>)
    ensures |s| == 8
  {
    Put(e, 2, z.id) + Put(e, 2, z.previousIndex) + Put(e, 4, z.reserved)
  }

  function BoundsLayout(e: Endian): Bounds -> seq<byte> {
    (b: Bounds) => BoundsBytes(e, b)
  }

  function PreviousBytes(e: Endian, z: Zone): (s: seq<byte>)
    ensures |s| == 112
  {
    ListLength(BoundsLayout(e), z.previous, |z.previous|, 16);
    ListBytes(BoundsLayout(e), z.previous, |z.previous|)
  }

  function ZoneBytes(e: Endian, z: Zone): (s: seq<byte>)
    ensures |s| == ZONE_SIZE
  {
    BoundsBytes(e, z.current) + PreviousBytes(e, z) + TailBytes(e, z)
  }

  function BoundsAt(e: Endian, s: seq<byte>, offset: nat): Bounds
    requires offset + 16 <= |s|
  {
    Bounds(Uint64(e, s, offset), Uint64(e, s, offset + 8))
  }

  function ZoneAt(e: Endian, s: seq<byte>, offset: nat): Zone
    requires offset + ZONE_SIZE <= |s|
  {
    Zone(
      BoundsAt(e, s, offset),
      seq(PREVIOUS, i requires 0 <= i < PREVIOUS => BoundsAt(e, s, offset + 16 + 16 * i)),
      Uint16(e, s, offset + 128),
      Uint16(e, s, offset + 130),
      Uint32(e, s, offset + 132))
  }

  function ChunkIds(e: Endian, c: Chunk): (s: seq<byte>)
    ensures |s| == 16
  {
    Put(e, 8, c.xid) + Put(e, 8, c.addr)
  }

  function ChunkCounts(e: Endian, c: Chunk): (s: seq<byte>)
    ensures |s| == 8
  {
    Put(e, 4, c.blockCount) + Put(e, 4, c.freeCount)
  }

  function ChunkBytes(e: Endian, c: Chunk): (s: seq<byte>)
    ensures |s| == CHUNK_SIZE
  {
    ChunkIds(e, c) + ChunkCounts(e, c) + Put(e, 8, c.bitmapAddr)
  }

  /** The layout of a zone, field by field. */
  lemma ZoneLayoutIs(e: Endian, z: Zone)
    ensures ZoneBytes(e, z) ==
              Put(e, 8, z.current.start) + Put(e, 8, z.current.end) + PreviousBytes(e, z)
              + (Put(e, 2, z.id) + Put(e, 2, z.previousIndex) + Put(e, 4, z.reserved))
  {}

  lemma PreviousLayoutIs(e: Endian, z: Zone, i: nat)
    requires i < PREVIOUS
    ensures PreviousBytes(e, z)[16 * i..16 * i + 16] == Put(e, 8, z.previous[i].start) + Put(e, 8, z.previous[i].end)
  {
    assert Holds(PreviousBytes(e, z), 0, PreviousBytes(e, z));
    ListHolds(PreviousBytes(e, z), 0, BoundsLayout(e), z.previous, |z.previous|, i, 16);
  }

  /** The layout of a chunk entry, field by field. */
  lemma ChunkLayoutIs(e: Endian, c: Chunk)
    ensures ChunkBytes(e, c) ==
              (Put(e, 8, c.xid) + Put(e, 8, c.addr)) + (Put(e, 4, c.blockCount) + Put(e, 4, c.freeCount))
              + Put(e, 8, c.bitmapAddr)
  {}

  function ChunkAt(e: Endian, s: seq<byte>, offset: nat): Chunk
    requires offset + CHUNK_SIZE <= |s|
  {
    Chunk(Uint64(e, s, offset), Uint64(e, s, offset + 8), Uint32(e, s, offset + 16), Uint32(e, s, offset + 20),
          Uint64(e, s, offset + 24))
  }

  // ---------------------------------------------------------------------------------------------------------------
  // Parsing inverts serialising
  // ---------------------------------------------------------------------------------------------------------------

  lemma BoundsReadBack(e: Endian, s: seq<byte>, offset: nat, b: Bounds)
    requires Holds(s, offset, BoundsBytes(e, b))
    ensures BoundsAt(e, s, offset) == b
  {
    GetFits(e, []);
    HoldsTwo(s, offset, Put(e, 8, b.start), Put(e, 8, b.end));
    ReadsBack(e, s, offset, 8, b.start);
    ReadsBack(e, s, offset + 8, 8, b.end);
  }

  lemma TailReadsBack(e: Endian, s: seq<byte>, offset: nat, z: Zone)
    requires Holds(s, offset, TailBytes(e, z))
    ensures Uint16(e, s, offset) == z.id && Uint16(e, s, offset + 2) == z.previousIndex
    ensures Uint32(e, s, offset + 4) == z.reserved
  {
    GetFits(e, []);
    HoldsThree(s, offset, Put(e, 2, z.id), Put(e, 2, z.previousIndex), Put(e, 4, z.reserved));
    ReadsBack(e, s, offset, 2, z.id);
    ReadsBack(e, s, offset + 2, 2, z.previousIndex);
    ReadsBack(e, s, offset + 4, 4, z.reserved);
  }

  lemma BoundsWide(e: Endian, bs: seq<Bounds>)
    ensures AllWide(BoundsLayout(e), bs, 16)
  {}

  lemma BoundsListReadsBack(e: Endian, s: seq<byte>, offset: nat, bs: seq<Bounds>)
    requires offset + 16 * |bs| <= |s|
    requires forall i :: 0 <= i < |bs| ==> Holds(s, offset + 16 * i, BoundsBytes(e, bs[i]))
    ensures seq(|bs|, i requires 0 <= i < |bs| => BoundsAt(e, s, offset + 16 * i)) == bs
  {
    forall i | 0 <= i < |bs|
      ensures BoundsAt(e, s, offset + 16 * i) == bs[i]
    {
      BoundsReadBack(e, s, offset + 16 * i, bs[i]);
    }
  }

  lemma PreviousReadBack(e: Endian, s: seq<byte>, offset: nat, z: Zone)
    requires Holds(s, offset, PreviousBytes(e, z))
    ensures seq(PREVIOUS, i requires 0 <= i < PREVIOUS => BoundsAt(e, s, offset + 16 * i)) == z.previous
  {
    BoundsWide(e, z.previous);
    forall i | 0 <= i < PREVIOUS
      ensures Holds(s, offset + 16 * i, BoundsBytes(e, z.previous[i]))
    {
      ItemHolds(s, offset, BoundsLayout(e), z.previous, i, 16, offset + 16 * i, BoundsBytes(e, z.previous[i]));
    }
    BoundsListReadsBack(e, s, offset, z.previous);
  }

  /** A zone written anywhere in a buffer, in either byte order, reads back. */
  lemma ZoneReadsBack(e: Endian, s: seq<byte>, offset: nat, z: Zone)
    requires Holds(s, offset, ZoneBytes(e, z))
    ensures ZoneAt(e, s, offset) == z
  {
    HoldsThree(s, offset, BoundsBytes(e, z.current), PreviousBytes(e, z), TailBytes(e, z));
    BoundsReadBack(e, s, offset, z.current);
    PreviousReadBack(e, s, offset + 16, z);
    assert ZoneAt(e, s, offset).previous
        == seq(PREVIOUS, i requires 0 <= i < PREVIOUS => BoundsAt(e, s, offset + 16 + 16 * i));
    TailReadsBack(e, s, offset + 128, z);
  }

  lemma ChunkReadsBack(e: Endian, s: seq<byte>, offset: nat, c: Chunk)
    requires Holds(s, offset, ChunkBytes(e, c))
    ensures ChunkAt(e, s, offset) == c
  {
    GetFits(e, []);
    HoldsThree(s, offset, ChunkIds(e, c), ChunkCounts(e, c), Put(e, 8, c.bitmapAddr));
    HoldsTwo(s, offset, Put(e, 8, c.xid), Put(e, 8, c.addr));
    HoldsTwo(s, offset + 16, Put(e, 4, c.blockCount), Put(e, 4, c.freeCount));
    ReadsBack(e, s, offset, 8, c.xid);
    ReadsBack(e, s, offset + 8, 8, c.addr);
    ReadsBack(e, s, offset + 16, 4, c.blockCount);
    ReadsBack(e, s, offset + 20, 4, c.freeCount);
    ReadsBack(e, s, offset + 24, 8, c.bitmapAddr);
  }

  // ---------------------------------------------------------------------------------------------------------------
  // Zone tables
  // ---------------------------------------------------------------------------------------------------------------

  function ZoneLayout(e: Endian): Zone -> seq<byte> {
    (z: Zone) => ZoneBytes(e, z)
  }

  function DeviceBytes(e: Endian, zs: seq<Zone>): (s: seq<byte>)
    requires |zs| == ZONES
    ensures |s| == 1088
  {
    ListLength(ZoneLayout(e), zs, |zs|, ZONE_SIZE);
    ListBytes(ZoneLayout(e), zs, |zs|)
  }

  function TableBytes(e: Endian, t: Table): (s: seq<byte>)
    ensures |s| == TABLE_SIZE
  {
    DeviceBytes(e, t[0]) + DeviceBytes(e, t[1])
  }

  /** Where the zone of a device lies in a table. */
  function ZoneOffset(device: nat, zone: nat): nat {
    136 * (8 * device + zone)
  }

  /** The table in the first 2176 bytes. */
  function TableAt(e: Endian, s: seq<byte>): (t: Table)
    requires TABLE_SIZE <= |s|
  {
    seq(DEVICES, d requires 0 <= d < DEVICES =>
      seq(ZONES, z requires 0 <= z < ZONES => ZoneAt(e, s, ZoneOffset(d, z))))
  }

  /** The zones of a device, written at an offset, read back. */
  lemma ZonesReadBack(e: Endian, s: seq<byte>, offset: nat, zs: seq<Zone>, i: nat)
    requires i < |zs| == ZONES && Holds(s, offset, DeviceBytes(e, zs))
    ensures ZoneAt(e, s, offset + 136 * i) == zs[i]
  {
    ZonesWide(e, zs);
    ItemHolds(s, offset, ZoneLayout(e), zs, i, 136, offset + 136 * i, ZoneBytes(e, zs[i]));
    ZoneReadsBack(e, s, offset + 136 * i, zs[i]);
  }

  lemma ZonesWide(e: Endian, zs: seq<Zone>)
    ensures AllWide(ZoneLayout(e), zs, 136)
  {}

  /** Serialise, then parse: the same table, in either byte order, whatever follows it in the buffer. */
  lemma TableReadsBack(e: Endian, t: Table, rest: seq<byte>)
    ensures TableAt(e, TableBytes(e, t) + rest) == t
  {
    var s := TableBytes(e, t) + rest;
    HoldsTwo(s, 0, DeviceBytes(e, t[0]), DeviceBytes(e, t[1]));
    forall z | 0 <= z < ZONES
      ensures ZoneAt(e, s, 136 * z) == t[0][z] && ZoneAt(e, s, 1088 + 136 * z) == t[1][z]
    {
      ZonesReadBack(e, s, 0, t[0], z);
      ZonesReadBack(e, s, 1088, t[1], z);
    }
    TableOfZones(e, s, t);
  }

  /** A table whose zones are those at their offsets is the table in the buffer. */
  lemma TableOfZones(e: Endian, s: seq<byte>, t: Table)
    requires 2176 <= |s|
    requires forall z :: 0 <= z < ZONES ==>
               t[0][z] == ZoneAt(e, s, 136 * z) && t[1][z] == ZoneAt(e, s, 1088 + 136 * z)
    ensures TableAt(e, s) == t
  {
    assert TableAt(e, s)[0] == t[0];
    assert TableAt(e, s)[1] == t[1];
  }

  method WriteBounds(e: Endian, data: array<byte>, start: nat, b: Bounds)
    requires start + 16 <= data.Length
    modifies data
    ensures Appended(old(data[..]), data[..], start, BoundsBytes(e, b))
  {
    ghost var s0 := data[..];
    PutUint(e, data, start, 8, b.start);
    ghost var s1 := data[..];
    PutUint(e, data, start + 8, 8, b.end);
    AppendedTwice(s0, s1, data[..], start, Put(e, 8, b.start), Put(e, 8, b.end));
  }

  /** One more pair of boundaries, however they are laid out in general. */
  lemma BoundsOfListAppended(
    e: Endian, layout: Bounds -> seq<byte>, s0: seq<byte>, s1: seq<byte>, s2: seq<byte>, start: nat, bs: seq<Bounds>,
    i: nat)
    requires i < |bs| && Appended(s0, s1, start, ListBytes(layout, bs, i))
    requires AllWide(layout, bs, 16) && BoundsBytes(e, bs[i]) == layout(bs[i])
    requires Appended(s1, s2, start + 16 * i, BoundsBytes(e, bs[i]))
    ensures Appended(s0, s2, start, ListBytes(layout, bs, i + 1))
  {
    ItemAppended(s0, s1, s2, start, layout, bs, i, 16, start + 16 * i, BoundsBytes(e, bs[i]));
  }

  lemma BoundsAppended(e: Endian, s0: seq<byte>, s1: seq<byte>, s2: seq<byte>, start: nat, bs: seq<Bounds>, i: nat)
    requires i < |bs| && Appended(s0, s1, start, ListBytes(BoundsLayout(e), bs, i))
    requires Appended(s1, s2, start + 16 * i, BoundsBytes(e, bs[i]))
    ensures Appended(s0, s2, start, ListBytes(BoundsLayout(e), bs, i + 1))
  {
    BoundsWide(e, bs);
    BoundsOfListAppended(e, BoundsLayout(e), s0, s1, s2, start, bs, i);
  }

  /** The next of a list of boundaries. */
  method WriteNextBounds(
    e: Endian, data: array<byte>, offset: nat, bs: seq<Bounds>, i: nat, ghost start: nat, ghost s0: seq<byte>)
    requires i < |bs| && offset == start + 16 * i && offset + 16 <= data.Length
    requires Appended(s0, data[..], start, ListBytes(BoundsLayout(e), bs, i))
    modifies data
    ensures Appended(s0, data[..], start, ListBytes(BoundsLayout(e), bs, i + 1))
  {
    ghost var s1 := data[..];
    WriteBounds(e, data, offset, bs[i]);
    ghost var s2 := data[..];
    BoundsAppended(e, s0, s1, s2, start, bs, i);
  }

  method WritePrevious(e: Endian, data: array<byte>, start: nat, z: Zone)
    requires start + 112 <= data.Length
    modifies data
    ensures Appended(old(data[..]), data[..], start, PreviousBytes(e, z))
  {
    ghost var s0 := data[..];
    var offset := start;
    var i := 0;
    while i < PREVIOUS
      invariant i <= PREVIOUS && data.Length == |s0| && offset == start + 16 * i
      invariant Appended(s0, data[..], start, ListBytes(BoundsLayout(e), z.previous, i))
    {
      WriteNextBounds(e, data, offset, z.previous, i, start, s0);
      offset := offset + 16;
      i := i + 1;
    }
  }

  method WriteTail(e: Endian, data: array<byte>, start: nat, z: Zone)
    requires start + 8 <= data.Length
    modifies data
    ensures Appended(old(data[..]), data[..], start, TailBytes(e, z))
  {
    ghost var s0 := data[..];
    PutUint(e, data, start, 2, z.id);
    ghost var s1 := data[..];
    PutUint(e, data, start + 2, 2, z.previousIndex);
    ghost var s2 := data[..];
    PutUint(e, data, start + 4, 4, z.reserved);
    AppendedThrice(s0, s1, s2, data[..], start, Put(e, 2, z.id), Put(e, 2, z.previousIndex), Put(e, 4, z.reserved));
  }

  /** Writes a zone at an offset, field by field. */
  method WriteZone(e: Endian, data: array<byte>, start: nat, z: Zone)
    requires start + ZONE_SIZE <= data.Length
    modifies data
    ensures Appended(old(data[..]), data[..], start, ZoneBytes(e, z))
  {
    ghost var s0 := data[..];
    WriteBounds(e, data, start, z.current);
    ghost var s1 := data[..];
    WritePrevious(e, data, start + 16, z);
    ghost var s2 := data[..];
    WriteTail(e, data, start + 128, z);
    AppendedThrice(s0, s1, s2, data[..], start, BoundsBytes(e, z.current), PreviousBytes(e, z), TailBytes(e, z));
  }

  /** One more zone, however zones are laid out in general. */
  lemma ZoneOfListAppended(
    e: Endian, layout: Zone -> seq<byte>, s0: seq<byte>, s1: seq<byte>, s2: seq<byte>, start: nat, zs: seq<Zone>,
    i: nat, at: nat)
    requires i < |zs| && Appended(s0, s1, start, ListBytes(layout, zs, i))
    requires AllWide(layout, zs, 136) && at == start + i * 136 && ZoneBytes(e, zs[i]) == layout(zs[i])
    requires Appended(s1, s2, at, ZoneBytes(e, zs[i]))
    ensures Appended(s0, s2, start, ListBytes(layout, zs, i + 1))
  {
    ItemAppended(s0, s1, s2, start, layout, zs, i, 136, at, ZoneBytes(e, zs[i]));
  }

  lemma ZoneAppended(e: Endian, s0: seq<byte>, s1: seq<byte>, s2: seq<byte>, start: nat, zs: seq<Zone>, i: nat)
    requires i < |zs| && Appended(s0, s1, start, ListBytes(ZoneLayout(e), zs, i))
    requires Appended(s1, s2, start + 136 * i, ZoneBytes(e, zs[i]))
    ensures Appended(s0, s2, start, ListBytes(ZoneLayout(e), zs, i + 1))
  {
    ZonesWide(e, zs);
    ZoneOfListAppended(e, ZoneLayout(e), s0, s1, s2, start, zs, i, start + 136 * i);
  }

  /** The next of a list of zones. */
  method WriteNextZone(
    e: Endian, data: array<byte>, offset: nat, zs: seq<Zone>, i: nat, ghost start: nat, ghost s0: seq<byte>)
    requires i < |zs| && offset == start + 136 * i && offset + ZONE_SIZE <= data.Length
    requires Appended(s0, data[..], start, ListBytes(ZoneLayout(e), zs, i))
    modifies data
    ensures Appended(s0, data[..], start, ListBytes(ZoneLayout(e), zs, i + 1))
  {
    ghost var s1 := data[..];
    WriteZone(e, data, offset, zs[i]);
    ghost var s2 := data[..];
    ZoneAppended(e, s0, s1, s2, start, zs, i);
  }

  /** The zones of one device, one behind the other. */
  method WriteDevice(e: Endian, data: array<byte>, start: nat, zs: seq<Zone>)
    requires |zs| == ZONES && start + 1088 <= data.Length
    modifies data
    ensures Appended(old(data[..]), data[..], start, DeviceBytes(e, zs))
  {
    ghost var s0 := data[..];
    var offset := start;
    var zone := 0;
    while zone < ZONES
      invariant zone <= ZONES && data.Length == |s0| && offset == start + 136 * zone
      invariant Appended(s0, data[..], start, ListBytes(ZoneLayout(e), zs, zone))
    {
      WriteNextZone(e, data, offset, zs, zone, start, s0);
      offset := offset + ZONE_SIZE;
      zone := zone + 1;
    }
  }

  /** GetDataZoneInfo's serialiser: the zones of both devices into a fresh buffer. */
  method SerialiseTable(e: Endian, t: Table) returns (data: array<byte>)
    ensures fresh(data) && data[..] == TableBytes(e, t)
  {
    data := new byte[TABLE_SIZE](_ => 0);
    ghost var s0 := data[..];
    WriteDevice(e, data, 0, t[0]);
    ghost var s1 := data[..];
    WriteDevice(e, data, 1088, t[1]);
    AppendedTwice(s0, s1, data[..], 0, DeviceBytes(e, t[0]), DeviceBytes(e, t[1]));
    AppendedHolds(s0, data[..], 0, TableBytes(e, t));
  }

  /** Parses one zone, field by field. */
  method ReadZone(e: Endian, data: seq<byte>, start: nat) returns (z: Zone)
    requires start + ZONE_SIZE <= |data|
    ensures z == ZoneAt(e, data, start)
  {
    var offset := start;
    var current := Bounds(Uint64(e, data, offset), Uint64(e, data, offset + 8));
    offset := offset + 16;
    var previous: seq<Bounds> := [];
    var i := 0;
    while i < PREVIOUS
      invariant i <= PREVIOUS && |previous| == i && offset == start + 16 + 16 * i
      invariant forall k :: 0 <= k < i ==> previous[k] == BoundsAt(e, data, start + 16 + 16 * k)
    {
      previous := previous + [Bounds(Uint64(e, data, offset), Uint64(e, data, offset + 8))];
      offset := offset + 16;
      i := i + 1;
    }
    var id := Uint16(e, data, offset);
    offset := offset + 2;
    var previousIndex := Uint16(e, data, offset);
    offset := offset + 2;
    var reserved := Uint32(e, data, offset);
    z := Zone(current, previous, id, previousIndex, reserved);
    assert z.previous == ZoneAt(e, data, start).previous;
  }

  method ReadZones(e: Endian, data: seq<byte>, start: nat) returns (zs: seq<Zone>)
    requires start + 1088 <= |data|
    ensures |zs| == ZONES && forall k :: 0 <= k < ZONES ==> zs[k] == ZoneAt(e, data, start + 136 * k)
  {
    zs := [];
    var zone := 0;
    while zone < ZONES
      invariant zone <= ZONES && |zs| == zone
      invariant forall k :: 0 <= k < zone ==> zs[k] == ZoneAt(e, data, start + 136 * k)
    {
      var z := ReadZone(e, data, start + 136 * zone);
      zs := zs + [z];
      zone := zone + 1;
    }
  }

  /** NewDataZoneInfoReader: parses a zone table, or rejects a buffer shorter than 2176 bytes. */
  method ParseTable(e: Endian, data: seq<byte>) returns (r: Outcome<Table>)
    ensures r == if |data| < TABLE_SIZE then Err else Ok(TableAt(e, data))
  {
    if |data| < TABLE_SIZE {
      return Err;
    }
    var main := ReadZones(e, data, 0);
    var tier2 := ReadZones(e, data, 1088);
    TableOfZones(e, data, [main, tier2]);
    r := Ok([main, tier2]);
  }

  /** GetDataZoneInfo: what the reader over the serialised bytes holds is the table itself. */
  method GetDataZoneInfo(e: Endian, t: Table) returns (r: Outcome<Table>)
    ensures r == Ok(t)
  {
    var data := SerialiseTable(e, t);
    TableReadsBack(e, t, []);
    assert TableBytes(e, t) + [] == TableBytes(e, t);
    r := ParseTable(e, data[..]);
  }

  /** Devices are ints, and the range check of the source lets a negative one pass. */
  function GetAllocationZone(t: Table, device: int, zone: int): Outcome<Zone> {
    if device >= DEVICES || zone < 0 || zone >= ZONES then Err
    else if device < 0 then Panic  // index out of range
    else Ok(t[device][zone])
  }

  /** The zone of a parsed table is the one stored at its place: 136 bytes a zone, 8 zones a device. */
  lemma ZoneOfParsedTable(e: Endian, data: seq<byte>, device: nat, zone: nat)
    requires |data| >= 2176 && device < 2 && zone < 8
    ensures 0 <= 136 * (8 * device + zone) && 136 * (8 * device + zone) + 136 <= |data|
    ensures GetAllocationZone(TableAt(e, data), device, zone) == Ok(ZoneAt(e, data, 136 * (8 * device + zone)))
  {}

  /** An index is answered with a zone or an error, unless a negative device comes with a valid zone. */
  lemma ZonePanicsIff(t: Table, device: int, zone: int)
    ensures GetAllocationZone(t, device, zone).Panic? <==> device < 0 && 0 <= zone < ZONES
    ensures GetAllocationZone(t, -1, 0) == Panic
  {}

  /** The zone re-read from its own serialisation is the zone of the table, errors included. */
  method GetAllocationZoneReader(e: Endian, t: Table, device: int, zone: int) returns (r: Outcome<Zone>)
    ensures r == GetAllocationZone(t, device, zone)
  {
    if device >= DEVICES || zone < 0 || zone >= ZONES {
      return Err;
    }
    if device < 0 {
      return Panic;
    }
    var data := new byte[ZONE_SIZE](_ => 0);
    ghost var empty := data[..];
    WriteZone(e, data, 0, t[device][zone]);
    AppendedHolds(empty, data[..], 0, ZoneBytes(e, t[device][zone]));
    ZoneReadsBack(e, data[..], 0, t[device][zone]);
    var z := ReadZone(e, data[..], 0);
    r := Ok(z);
  }

  // ---------------------------------------------------------------------------------------------------------------
  // Chunk-info blocks
  // ---------------------------------------------------------------------------------------------------------------

  const OBJECT_TYPE_SPACEMAN_CIB := 7

  datatype ChunkInfoBlock = ChunkInfoBlock(index: u32, chunks: seq<Chunk>)

  /** A chunk-info block: 32 bytes of object header, index, count, and that many 32-byte entries. */
  function ChunkBlockAt(e: Endian, data: seq<byte>): Outcome<ChunkInfoBlock> {
    if |data| < 40 then Err
    else
      var count := Uint32(e, data, 36);
      if |data| < 40 + 32 * count || Uint32(e, data, 24) % 0x1_0000 != OBJECT_TYPE_SPACEMAN_CIB then Err
      else
        Ok(ChunkInfoBlock(
          Uint32(e, data, 32),
          seq(count, i requires 0 <= i < count => ChunkAt(e, data, 40 + 32 * i))))
  }

  function ChunkLayout(e: Endian): Chunk -> seq<byte> {
    (c: Chunk) => ChunkBytes(e, c)
  }

  /**
    A 32-byte object header with type 7 at byte 24, the index, the number of entries, and the entries one behind the
    other parse to that index and those entries, whatever follows.
   */
  lemma ChunkBlockReadsBack(e: Endian, header: seq<byte>, index: u32, chunks: seq<Chunk>, tail: seq<byte>)
    requires |header| == 32 && Get(e, header[24..28]) % 0x1_0000 == 7 && |chunks| < 0x1_0000_0000
    ensures ChunkBlockAt(
              e, header + Put(e, 4, index) + Put(e, 4, |chunks|) + ListBytes(ChunkLayout(e), chunks, |chunks|) + tail)
              == Ok(ChunkInfoBlock(index, chunks))
  {
    ChunksWide(e, chunks);
    ListLength(ChunkLayout(e), chunks, |chunks|, 32);
    ChunkBlockOfList(e, header, index, ChunkLayout(e), chunks, tail);
  }

  lemma ChunksWide(e: Endian, chunks: seq<Chunk>)
    ensures AllWide(ChunkLayout(e), chunks, 32)
    ensures forall i :: 0 <= i < |chunks| ==> ChunkBytes(e, chunks[i]) == ChunkLayout(e)(chunks[i])
  {}

  lemma ChunkBlockOfList(
    e: Endian, header: seq<byte>, index: u32, layout: Chunk -> seq<byte>, chunks: seq<Chunk>, tail: seq<byte>)
    requires |header| == 32 && Get(e, header[24..28]) % 0x1_0000 == 7 && |chunks| < 0x1_0000_0000
    requires AllWide(layout, chunks, 32)
    requires forall i :: 0 <= i < |chunks| ==> ChunkBytes(e, chunks[i]) == layout(chunks[i])
    ensures var data := header + Put(e, 4, index) + Put(e, 4, |chunks|) + ListBytes(layout, chunks, |chunks|) + tail;
            ChunkBlockAt(e, data) == Ok(ChunkInfoBlock(index, chunks))
  {
    var list := ListBytes(layout, chunks, |chunks|);
    var data := header + Put(e, 4, index) + Put(e, 4, |chunks|) + list + tail;
    ListLength(layout, chunks, |chunks|, 32);
    ChunkBlockFields(e, header, index, |chunks|, list, tail);
    forall i | 0 <= i < |chunks|
      ensures Holds(data, 40 + 32 * i, ChunkBytes(e, chunks[i]))
    {
      ChunkOfListHeld(e, data, layout, chunks, i);
    }
    ChunksReadBack(e, data, chunks);
    ChunkBlockOfFields(e, data, index, chunks);
  }

  /** A block with these fields and entries. */
  lemma ChunkBlockOfFields(e: Endian, data: seq<byte>, index: u32, chunks: seq<Chunk>)
    requires 40 + 32 * |chunks| <= |data| && |chunks| < 0x1_0000_0000
    requires Uint32(e, data, 24) % 0x1_0000 == 7 && Uint32(e, data, 32) == index && Uint32(e, data, 36) == |chunks|
    requires forall i :: 0 <= i < |chunks| ==> ChunkAt(e, data, 40 + 32 * i) == chunks[i]
    ensures ChunkBlockAt(e, data) == Ok(ChunkInfoBlock(index, chunks))
  {
    assert seq(|chunks|, i requires 0 <= i < |chunks| => ChunkAt(e, data, 40 + 32 * i)) == chunks;
  }

  /** Entries written from byte 40 on read back. */
  lemma ChunksReadBack(e: Endian, data: seq<byte>, chunks: seq<Chunk>)
    requires 40 + 32 * |chunks| <= |data|
    requires forall i :: 0 <= i < |chunks| ==> Holds(data, 40 + 32 * i, ChunkBytes(e, chunks[i]))
    ensures forall i :: 0 <= i < |chunks| ==> ChunkAt(e, data, 40 + 32 * i) == chunks[i]
  {
    forall i | 0 <= i < |chunks|
      ensures ChunkAt(e, data, 40 + 32 * i) == chunks[i]
    {
      ChunkReadsBack(e, data, 40 + 32 * i, chunks[i]);
    }
  }

  /** An entry's place in the list. */
  lemma ChunkOfListHeld(e: Endian, data: seq<byte>, layout: Chunk -> seq<byte>, chunks: seq<Chunk>, i: nat)
    requires i < |chunks| && AllWide(layout, chunks, 32) && ChunkBytes(e, chunks[i]) == layout(chunks[i])
    requires Holds(data, 40, ListBytes(layout, chunks, |chunks|))
    ensures Holds(data, 40 + 32 * i, ChunkBytes(e, chunks[i]))
  {
    ItemHolds(data, 40, layout, chunks, i, 32, 40 + 32 * i, ChunkBytes(e, chunks[i]));
  }

  /** The fields in front of the entries. */
  lemma ChunkBlockFields(e: Endian, header: seq<byte>, index: u32, count: u32, list: seq<byte>, tail: seq<byte>)
    requires |header| == 32
    ensures var data := header + Put(e, 4, index) + Put(e, 4, count) + list + tail;
            && |data| == 40 + |list| + |tail| && Holds(data, 40, list)
            && Uint32(e, data, 24) == Get(e, header[24..28])
            && Uint32(e, data, 32) == index && Uint32(e, data, 36) == count
  {
    var data := header + Put(e, 4, index) + Put(e, 4, count) + list + tail;
    GetFits(e, []);
    assert data[24..28] == header[24..28];
    assert Holds(data, 32, Put(e, 4, index)) && Holds(data, 36, Put(e, 4, count));
    ReadsBack(e, data, 32, 4, index);
    ReadsBack(e, data, 36, 4, count);
  }

  /** A block is rejected exactly if it is shorter than 40 bytes or than its count demands, or of another type. */
  lemma ChunkBlockRejectedIff(e: Endian, data: seq<byte>)
    ensures ChunkBlockAt(e, data) == Err <==>
              |data| < 40 || |data| < 40 + 32 * Get(e, data[36..40]) || Get(e, data[24..28]) % 0x1_0000 != 7
  {}

  method ReadChunks(e: Endian, data: seq<byte>, count: nat) returns (chunks: seq<Chunk>)
    requires 40 + 32 * count <= |data|
    ensures |chunks| == count && forall k :: 0 <= k < count ==> chunks[k] == ChunkAt(e, data, 40 + 32 * k)
  {
    chunks := [];
    var offset := 40;
    var i := 0;
    while i < count
      invariant i <= count && |chunks| == i && offset == 40 + 32 * i
      invariant forall k :: 0 <= k < i ==> chunks[k] == ChunkAt(e, data, 40 + 32 * k)
    {
      chunks := chunks + [ChunkAt(e, data, offset)];
      offset := offset + CHUNK_SIZE;
      i := i + 1;
    }
  }

  method ParseChunkInfoBlock(e: Endian, data: seq<byte>) returns (r: Outcome<ChunkInfoBlock>)
    ensures r == ChunkBlockAt(e, data)
  {
    if |data| < 40 {
      return Err;
    }
    var index, count := Uint32(e, data, 32), Uint32(e, data, 36);
    var chunks: seq<Chunk> := [];
    if count > 0 {
      if |data| < 40 + count * 32 {
        return Err;
      }
      chunks := ReadChunks(e, data, count);
    }
    if Uint32(e, data, 24) % 0x1_0000 != OBJECT_TYPE_SPACEMAN_CIB {
      return Err;
    }
    assert chunks == seq(count, i requires 0 <= i < count => ChunkAt(e, data, 40 + 32 * i));
    r := Ok(ChunkInfoBlock(index, chunks));
  }

  /** The chunk re-read from its own serialisation is entry `index`, errors included. */
  method GetChunkInfoReader(e: Endian, b: ChunkInfoBlock, index: nat) returns (r: Outcome<Chunk>)
    ensures r == if index < |b.chunks| then Ok(b.chunks[index]) else Err
  {
    if index >= |b.chunks| {
      return Err;
    }
    var c := b.chunks[index];
    var data := new byte[CHUNK_SIZE](_ => 0);
    ghost var empty := data[..];
    WriteChunk(e, data, c);
    AppendedHolds(empty, data[..], 0, ChunkBytes(e, c));
    ChunkReadsBack(e, data[..], 0, c);
    r := Ok(ChunkAt(e, data[..], 0));
  }

  method WriteChunk(e: Endian, data: array<byte>, c: Chunk)
    requires data.Length == CHUNK_SIZE
    modifies data
    ensures Appended(old(data[..]), data[..], 0, ChunkBytes(e, c))
  {
    ghost var s0 := data[..];
    PutUint(e, data, 0, 8, c.xid);
    ghost var s1 := data[..];
    PutUint(e, data, 8, 8, c.addr);
    ghost var s2 := data[..];
    AppendedTwice(s0, s1, s2, 0, Put(e, 8, c.xid), Put(e, 8, c.addr));
    PutUint(e, data, 16, 4, c.blockCount);
    ghost var s3 := data[..];
    PutUint(e, data, 20, 4, c.freeCount);
    ghost var s4 := data[..];
    AppendedTwice(s2, s3, s4, 16, Put(e, 4, c.blockCount), Put(e, 4, c.freeCount));
    PutUint(e, data, 24, 8, c.bitmapAddr);
    AppendedThrice(s0, s2, s4, data[..], 0, ChunkIds(e, c), ChunkCounts(e, c), Put(e, 8, c.bitmapAddr));
  }

  function TotalBlocks(cs: seq<Chunk>): nat {
    if cs == [] then 0 else TotalBlocks(cs[..|cs| - 1]) + cs[|cs| - 1].blockCount
  }

  function TotalFree(cs: seq<Chunk>): nat {
    if cs == [] then 0 else TotalFree(cs[..|cs| - 1]) + cs[|cs| - 1].freeCount
  }

  /** Another entry changes each total by the difference of its own count. */
  lemma {:induction false} TotalsOfUpdate(cs: seq<Chunk>, i: nat, c: Chunk)
    requires i < |cs|
    ensures TotalBlocks(cs[i := c]) - TotalBlocks(cs) == c.blockCount as int - cs[i].blockCount as int
    ensures TotalFree(cs[i := c]) - TotalFree(cs) == c.freeCount as int - cs[i].freeCount as int
  {
    var n := |cs| - 1;
    if i < n {
      assert cs[i := c][..n] == cs[..n][i := c];
      TotalsOfUpdate(cs[..n], i, c);
    } else {
      assert cs[i := c][..n] == cs[..n];
    }
  }

  /** Chunks that count no blocks and no free blocks total zero. */
  lemma {:induction false} TotalsOfNothing(cs: seq<Chunk>)
    requires forall c :: c in cs ==> c.blockCount == 0 && c.freeCount == 0
    ensures TotalBlocks(cs) == 0 && TotalFree(cs) == 0
  {
    if cs != [] {
      TotalsOfNothing(cs[..|cs| - 1]);
    }
  }

  /** The totals are exact: the 64-bit accumulators cannot overflow, for as many chunks as a count can express. */
  method CalculateTotals(b: ChunkInfoBlock) returns (total: u64, free: u64)
    requires |b.chunks| < 0x1_0000_0000
    ensures total == TotalBlocks(b.chunks) && free == TotalFree(b.chunks)
  {
    total, free := 0, 0;
    var i := 0;
    while i < |b.chunks|
      invariant i <= |b.chunks|
      invariant total == TotalBlocks(b.chunks[..i]) && free == TotalFree(b.chunks[..i])
      invariant total <= 0xFFFF_FFFF * i && free <= 0xFFFF_FFFF * i
    {
      assert b.chunks[..i + 1][..i] == b.chunks[..i];
      total := total + b.chunks[i].blockCount;
      free := free + b.chunks[i].freeCount;
      i := i + 1;
    }
    assert b.chunks[..i] == b.chunks;
  }
}
