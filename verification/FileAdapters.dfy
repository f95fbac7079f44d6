/** Cursors over a file (internal/services/file_adapters.go). */
module FileAdapters {
  import opened Cells
  import opened Outcomes
  import opened Device
  import opened FileService

  datatype IoError = NoError | EndOfFile | Failed | Panicked

  const SEEK_START := 0
  const SEEK_CURRENT := 1
  const SEEK_END := 2

  // ---------------------------------------------------------------------------------------------------------------
  // The reference: a cursor over bytes in memory
  // ---------------------------------------------------------------------------------------------------------------

  datatype Reply = Reply(data: seq<byte>, err: IoError)

  function MemoryRead(contents: seq<byte>, pos: nat, room: nat): Reply {
    if pos >= |contents| then Reply([], EndOfFile)
    else Reply(contents[pos..Min(pos + room, |contents|)], NoError)
  }

  /** Where a seek is relative to. */
  function SeekBase(size: nat, pos: nat, whence: int): nat {
    if whence == SEEK_CURRENT then pos else if whence == SEEK_END then size else 0
  }

  /** Where a seek lands, or an error; positions are the non-negative int64 values. */
  function SeekTarget(size: nat, pos: nat, distance: int, whence: int): Outcome<nat> {
    var target := SeekBase(size, pos, whence) + distance;
    if SEEK_START <= whence <= SEEK_END && 0 <= target < TWO_TO_THE_63 then Ok(target) else Err
  }

  /** `r` is a success at `target` if that is a non-negative int64 value, and otherwise an error. */
  predicate LandsAt(r: Outcome<nat>, target: int) {
    if 0 <= target < 0x8000_0000_0000_0000 then r == Ok(target) else r == Err
  }

  /** From the start, from the cursor, from the end; any other whence is an error. */
  lemma SeekPlaces(size: nat, pos: nat, distance: int, whence: int)
    ensures LandsAt(SeekTarget(size, pos, distance, 0), distance)
    ensures LandsAt(SeekTarget(size, pos, distance, 1), pos + distance)
    ensures LandsAt(SeekTarget(size, pos, distance, 2), size + distance)
    ensures whence != 0 && whence != 1 && whence != 2 ==> SeekTarget(size, pos, distance, whence) == Err
  {}

  /** What Seek returns: where the target lies at or beyond 2^64, it wraps around. */
  function SeekResult(size: u64, pos: u64, distance: int, whence: int): Outcome<nat>
    requires distance < TWO_TO_THE_63
  {
    var target := SeekBase(size, pos, whence) + distance;
    if SEEK_START <= whence <= SEEK_END && target >= TWO_TO_THE_64 then Ok(target - TWO_TO_THE_64)
    else SeekTarget(size, pos, distance, whence)
  }

  /** Seek is right exactly when whence is invalid or the target lies below 2^64. */
  lemma SeekIsRightIff(size: u64, pos: u64, distance: int, whence: int)
    requires distance < TWO_TO_THE_63
    ensures SeekResult(size, pos, distance, whence) == SeekTarget(size, pos, distance, whence) <==>
              !(SEEK_START <= whence <= SEEK_END) || SeekBase(size, pos, whence) + distance < TWO_TO_THE_64
    ensures SeekResult(TWO_TO_THE_64 - 1, 0, 1, SEEK_END) == Ok(0)
  {}

  // ---------------------------------------------------------------------------------------------------------------
  // The adapters
  // ---------------------------------------------------------------------------------------------------------------

  ghost function ReplyOf(r: Outcome<seq<byte>>): Reply {
    match r
    case Ok(data) => Reply(data, NoError)
    case Err => Reply([], Failed)
    case Panic => Reply([], Panicked)
  }

  /** What one Read returns, given the file's extents. */
  ghost function ReadReply(d: Device, extents: seq<Extent>, size: nat, pos: nat, room: nat): Reply
    requires d.blockSize > 0
  {
    if pos >= size then Reply([], EndOfFile)
    else
      var r := FileRange(d, extents, pos, Min(room, size - pos));
      ReplyOf(r)
  }

  /** The same for all 64-bit sizes: a read whose end wraps around 2^64 is not clipped to the size. */
  ghost function ReadResult(d: Device, extents: seq<Extent>, size: u64, pos: u64, room: u64): Reply
    requires d.blockSize > 0
  {
    if pos < size && pos + room >= TWO_TO_THE_64 then ReplyOf(RangeResult(d, extents, pos, room))
    else ReadReply(d, extents, size, pos, room)
  }

  /** A read that ends below 2^64 does not wrap; beyond, it returns nothing, an error or a panic, and no data. */
  lemma WrappedReadIsEmpty(d: Device, extents: seq<Extent>, size: u64, pos: u64, room: u64)
    requires d.blockSize > 0 && pos < size && pos + room >= TWO_TO_THE_64
    ensures ReadResult(d, extents, size, pos, room).data == []
    ensures ReadResult(d, extents, size, pos, room).err != EndOfFile
  {}

  lemma ReplyFits(d: Device, extents: seq<Extent>, offset: nat, length: nat)
    requires d.blockSize > 0
    ensures var r := FileRange(d, extents, offset, length); !r.Panic? && (r.Ok? ==> |r.value| <= length)
  {}

  /** How much a read asks for: the room clipped to the size, unless its end wraps around. */
  function ToRead(size: u64, pos: u64, room: u64): u64
    requires pos < size
  {
    if pos + room >= TWO_TO_THE_64 then room else Min(room, size - pos)
  }

  /** The range a read asks for gives its result. */
  lemma RangeIsReadResult(d: Device, extents: seq<Extent>, size: u64, pos: u64, room: u64)
    requires d.blockSize > 0 && pos < size
    ensures var r := RangeResult(d, extents, pos, ToRead(size, pos, room));
            && ReplyOf(r) == ReadResult(d, extents, size, pos, room)
            && (r.Ok? ==> |r.value| <= room && |r.value| <= size - pos)
  {
    ReplyFits(d, extents, pos, ToRead(size, pos, room));
  }

  /** Go's copy: as much of `data` as fits the front of `p`. */
  method Copy(p: array<byte>, data: seq<byte>) returns (n: nat)
    modifies p
    ensures n == Min(|data|, p.Length)
    ensures p[..n] == data[..n] && p[n..] == old(p[n..])
  {
    n := Min(|data|, p.Length);
    forall i | 0 <= i < n {
      p[i] := data[i];
    }
  }

  /** FileSeekerAdapter. FileReaderAdapter has the same fields and, line for line, the same Read, and no Seek. */
  class FileAdapter {
    const fs: FileSystemService
    const inode: u64
    const size: u64
    var offset: u64

    constructor (fs: FileSystemService, inode: u64, size: u64)
      ensures this.fs == fs && this.inode == inode && this.size == size && offset == 0
    {
      this.fs, this.inode, this.size, offset := fs, inode, size, 0;
    }

    /** The file exists and its layout fits 64-bit offsets. */
    ghost predicate Sound() {
      && fs.container.device.blockSize > 0
      && inode in fs.files && LayoutFits(fs.container.device, fs.files[inode].extents)
    }

    /** The clipped range read behind Read. */
    method Fetch(room: u64) returns (data: Outcome<seq<byte>>)
      requires fs.Valid() && offset < size && room < TWO_TO_THE_63
      modifies fs.container
      ensures fs.Valid()
      ensures Sound() ==>
                && ReplyOf(data) == ReadResult(fs.container.device, fs.files[inode].extents, size, offset, room)
                && (data.Ok? ==> |data.value| <= room && |data.value| <= size - offset)
    {
      var toRead := room;
      if U64(offset as int + toRead) > size {
        toRead := size - offset;
      }
      assert toRead == ToRead(size, offset, room);
      data := fs.ReadFileRange(inode, offset, toRead);
      if Sound() {
        RangeIsReadResult(fs.container.device, fs.files[inode].extents, size, offset, room);
      }
    }

    method Read(p: array<byte>) returns (n: nat, err: IoError)
      requires fs.Valid() && p.Length < TWO_TO_THE_63
      modifies `offset, p, fs.container
      ensures fs.Valid()
      ensures n <= p.Length && p[n..] == old(p[n..])
      ensures Sound() ==>
                && Reply(p[..n], err) ==
                     ReadResult(fs.container.device, fs.files[inode].extents, size, old(offset), p.Length)
                && offset == old(offset) + n
    {
      if offset >= size {
        return 0, EndOfFile;
      }
      var data := Fetch(p.Length);
      if !data.Ok? {
        return 0, if data.Panic? then Panicked else Failed;
      }
      n := Copy(p, data.value);
      assert n == |data.value| ==> data.value[..n] == data.value;
      offset := U64(offset as int + n);
      err := if offset >= size && n == 0 then EndOfFile else NoError;
    }

    method Seek(distance: int, whence: int) returns (r: Outcome<nat>)
      requires -0x8000_0000_0000_0000 <= distance < TWO_TO_THE_63
      modifies `offset
      ensures r == SeekResult(size, old(offset), distance, whence)
      ensures whence == 0 ==> LandsAt(r, distance)
      ensures whence == 1 && old(offset) + distance < TWO_TO_THE_64 ==> LandsAt(r, old(offset) + distance)
      ensures whence == 2 && size + distance < TWO_TO_THE_64 ==> LandsAt(r, size + distance)
      ensures offset == if r.Ok? then r.value else old(offset)
    {
      var newOffset: int;
      if whence == SEEK_START {
        newOffset := distance;
      } else if whence == SEEK_CURRENT {
        newOffset := I64(I64(offset) + distance);
      } else if whence == SEEK_END {
        newOffset := I64(I64(size) + distance);
      } else {
        return Err;
      }
      if newOffset < 0 {
        return Err;
      }
      offset := newOffset;
      r := Ok(newOffset);
    }

    /** The device can supply the file, and the extents cover the recorded size. */
    ghost predicate Covered(file: seq<byte>) {
      && Sound() && size < TWO_TO_THE_63
      && Collect(FileCells(fs.container.device, fs.files[inode].extents)) == Ok(file) && size <= |file|
    }

    /** One read of such a file. */
    method ReadNext(p: array<byte>, ghost file: seq<byte>) returns (data: seq<byte>, err: IoError)
      requires fs.Valid() && Covered(file) && p.Length < TWO_TO_THE_63 && offset <= size
      modifies `offset, p, fs.container
      ensures fs.Valid() && offset == Min(old(offset) + p.Length, size)
      ensures data == file[old(offset)..offset] && err == if old(offset) == size then EndOfFile else NoError
    {
      ReplyOfReadable(fs.container.device, fs.files[inode].extents, file, size, offset, p.Length);
      assert |FileCells(fs.container.device, fs.files[inode].extents)| == |file|;
      assert |FileCells(fs.container.device, [])| == 0;
      ghost var reply := ReadReply(fs.container.device, fs.files[inode].extents, size, offset, p.Length);
      var n;
      n, err := Read(p);
      data := p[..n];
      assert Reply(data, err) == reply && n == |reply.data|;
    }

    /** Reads to the end, as io.ReadAll does, through one buffer. */
    method ReadAll(p: array<byte>, ghost file: seq<byte>) returns (data: seq<byte>)
      requires fs.Valid() && Covered(file) && 0 < p.Length < TWO_TO_THE_63 && offset <= size
      modifies `offset, p, fs.container
      ensures fs.Valid() && offset == size && data == file[old(offset)..size]
    {
      data := [];
      var err := NoError;
      while err == NoError
        invariant fs.Valid() && old(offset) <= offset <= size && data == file[old(offset)..offset]
        invariant err == NoError || (err == EndOfFile && offset == size)
        decreases size - offset, if err == NoError then 1 else 0
      {
        ghost var start := offset;
        var part;
        part, err := ReadNext(p, file);
        assert file[old(offset)..start] + file[start..offset] == file[old(offset)..offset];
        data := data + part;
      }
    }
  }

  // ---------------------------------------------------------------------------------------------------------------
  // The adapters behave like the reference
  // ---------------------------------------------------------------------------------------------------------------

  /** Where a read of a readable file stops, whether or not the extents cover the recorded size. */
  function Stop(file: seq<byte>, size: nat, pos: nat, room: nat): nat {
    Min(pos + room, Min(size, |file|))
  }

  /** What a read of a readable file returns. */
  lemma ReplyOfReadable(d: Device, extents: seq<Extent>, file: seq<byte>, size: nat, pos: nat, room: nat)
    requires d.blockSize > 0 && Collect(FileCells(d, extents)) == Ok(file) && pos <= Min(size, |file|)
    ensures pos <= Stop(file, size, pos, room)
    ensures ReadReply(d, extents, size, pos, room) ==
              Reply(file[pos..Stop(file, size, pos, room)],
                    if pos == size then EndOfFile else if extents == [] then Failed else NoError)
  {
    if pos == size {
      assert file[pos..pos] == [];
    } else if extents == [] {
      assert Collect(FileCells(d, extents)).value == [];
    } else {
      RangeOfReadableFile(FileCells(d, extents), file, pos, Min(room, size - pos));
    }
  }

  /** If the device can supply the file and the extents cover its recorded size, Read is the in-memory cursor's read. */
  lemma ReadIsMemoryRead(d: Device, extents: seq<Extent>, file: seq<byte>, size: nat, pos: nat, room: nat)
    requires d.blockSize > 0 && Collect(FileCells(d, extents)) == Ok(file) && size <= |file|
    ensures ReadReply(d, extents, size, pos, room) == MemoryRead(file[..size], pos, room)
  {
    if pos < size {
      ReplyOfReadable(d, extents, file, size, pos, room);
      assert |FileCells(d, extents)| == |file| > 0 && |FileCells(d, [])| == 0;
      var stop := Min(pos + room, size);
      assert Stop(file, size, pos, room) == stop && pos <= stop <= size;
      assert file[pos..stop] == file[..size][pos..stop];
    }
  }

  datatype Reading = Reading(data: seq<byte>, position: nat, ended: bool)

  /** Successive reads with the given buffer sizes: all data in order, where they stop, whether the end was reported. */
  function Readings(reply: (nat, nat) -> Reply, pos: nat, rooms: seq<nat>): Reading
    decreases |rooms|
  {
    if rooms == [] then Reading([], pos, false)
    else
      var first := reply(pos, rooms[0]);
      var rest := Readings(reply, pos + |first.data|, rooms[1..]);
      Reading(first.data + rest.data, rest.position, first.err == EndOfFile || rest.ended)
  }

  /** A run of reads of an adapter. */
  ghost function ReadRun(d: Device, extents: seq<Extent>, size: nat, pos: nat, rooms: seq<nat>): Reading
    requires d.blockSize > 0
  {
    Readings((p: nat, room: nat) => ReadReply(d, extents, size, p, room), pos, rooms)
  }

  /** The same reads of the file's bytes in memory. */
  function FileReads(file: seq<byte>, size: nat, pos: nat, rooms: seq<nat>): (r: Reading)
    requires pos <= Min(size, |file|)
    ensures pos <= r.position <= Min(size, |file|) && r.data == file[pos..r.position]
    ensures r.ended ==> r.position == size
    decreases |rooms|
  {
    if rooms == [] then Reading([], pos, false)
    else
      var next := Stop(file, size, pos, rooms[0]);
      var rest := FileReads(file, size, next, rooms[1..]);
      assert file[pos..next] + file[next..rest.position] == file[pos..rest.position];
      Reading(file[pos..next] + rest.data, rest.position, pos == size || rest.ended)
  }

  lemma {:induction false} FileReadsReachEnd(file: seq<byte>, size: nat, pos: nat, rooms: seq<nat>)
    requires pos <= Min(size, |file|) && |rooms| > Min(size, |file|) - pos
    requires forall i :: 0 <= i < |rooms| ==> rooms[i] > 0
    ensures var r := FileReads(file, size, pos, rooms);
            r.position == Min(size, |file|) && (r.ended <==> size <= |file|)
    decreases |rooms|
  {
    if pos < Min(size, |file|) {
      FileReadsReachEnd(file, size, Stop(file, size, pos, rooms[0]), rooms[1..]);
    }
  }

  /** Each read returns the file's bytes up to where it stops, and the end exactly at the recorded size. */
  ghost predicate RepliesWithFile(reply: (nat, nat) -> Reply, file: seq<byte>, size: nat) {
    forall p: nat, room: nat :: p <= Min(size, |file|) ==>
      && p <= Stop(file, size, p, room) && reply(p, room).data == file[p..Stop(file, size, p, room)]
      && (reply(p, room).err == EndOfFile <==> p == size)
  }

  lemma {:induction false} ReadingsAreFileReads(
    reply: (nat, nat) -> Reply, file: seq<byte>, size: nat, pos: nat, rooms: seq<nat>)
    requires RepliesWithFile(reply, file, size) && pos <= Min(size, |file|)
    ensures Readings(reply, pos, rooms) == FileReads(file, size, pos, rooms)
    decreases |rooms|
  {
    if rooms != [] {
      assert |reply(pos, rooms[0]).data| == Stop(file, size, pos, rooms[0]) - pos;
      ReadingsAreFileReads(reply, file, size, Stop(file, size, pos, rooms[0]), rooms[1..]);
    }
  }

  lemma ReadRunIsFileReads(d: Device, extents: seq<Extent>, file: seq<byte>, size: nat, pos: nat, rooms: seq<nat>)
    requires d.blockSize > 0 && Collect(FileCells(d, extents)) == Ok(file) && pos <= Min(size, |file|)
    ensures ReadRun(d, extents, size, pos, rooms) == FileReads(file, size, pos, rooms)
  {
    var reply := (p: nat, room: nat) => ReadReply(d, extents, size, p, room);
    forall p: nat, room: nat | p <= Min(size, |file|)
      ensures p <= Stop(file, size, p, room) && reply(p, room).data == file[p..Stop(file, size, p, room)]
      ensures reply(p, room).err == EndOfFile <==> p == size
    {
      ReplyOfReadable(d, extents, file, size, p, room);
    }
    ReadingsAreFileReads(reply, file, size, pos, rooms);
  }

  /**
    Any run of reads of a readable file returns the bytes between the first and the last position, once and in order,
    and reports the end only at the recorded size, which the extents then cover.
   */
  lemma RunReadsInOrder(d: Device, extents: seq<Extent>, file: seq<byte>, size: nat, pos: nat, rooms: seq<nat>)
    requires d.blockSize > 0 && Collect(FileCells(d, extents)) == Ok(file) && pos <= Min(size, |file|)
    ensures var r := ReadRun(d, extents, size, pos, rooms);
            && pos <= r.position <= Min(size, |file|) && r.data == file[pos..r.position]
            && (r.ended ==> r.position == size)
  {
    ReadRunIsFileReads(d, extents, file, size, pos, rooms);
  }

  /**
    With positive buffers, one read more than there are bytes left returns everything left, and the end is reported if
    and only if the extents cover the recorded size.
   */
  lemma RunReachesEnd(d: Device, extents: seq<Extent>, file: seq<byte>, size: nat, pos: nat, rooms: seq<nat>)
    requires d.blockSize > 0 && Collect(FileCells(d, extents)) == Ok(file) && pos <= Min(size, |file|)
    requires |rooms| > Min(size, |file|) - pos && forall i :: 0 <= i < |rooms| ==> rooms[i] > 0
    ensures var all := Min(size, |file|);
            ReadRun(d, extents, size, pos, rooms) == Reading(file[pos..all], all, size <= |file|)
  {
    ReadRunIsFileReads(d, extents, file, size, pos, rooms);
    FileReadsReachEnd(file, size, pos, rooms);
  }

  /** A ten-byte hole recorded as twenty bytes: at position 10 every read returns nothing and no error. */
  lemma UncoveredNeverEnds(d: Device, room: nat, rooms: seq<nat>)
    requires d.blockSize > 0
    ensures ReadReply(d, [Extent(10, 0)], 20, 10, room) == Reply([], NoError)
    ensures !ReadRun(d, [Extent(10, 0)], 20, 10, rooms).ended
  {
    var extents := [Extent(10, 0)];
    assert extents[..0] == [] && FileCells(d, []) == [];
    var cells := FileCells(d, extents);
    assert |cells| == 10 && forall i :: 0 <= i < 10 ==> cells[i] == Some(0);
    var file := Collect(cells).value;
    ReplyOfReadable(d, extents, file, 20, 10, room);
    RunReadsInOrder(d, extents, file, 20, 10, rooms);
  }

  datatype Op = Read(room: nat) | Seek(distance: int, whence: int)

  datatype Answer = Data(reply: Reply) | Position(result: Outcome<nat>)

  /** The reference's answer to an operation. */
  function MemoryAnswer(contents: seq<byte>, pos: nat, op: Op): Answer {
    match op
    case Read(room) => Data(MemoryRead(contents, pos, room))
    case Seek(distance, whence) => Position(SeekTarget(|contents|, pos, distance, whence))
  }

  /** The adapter's answer to an operation: what the contracts of Read and Seek say. */
  ghost function AdapterAnswer(d: Device, extents: seq<Extent>, size: nat, pos: nat, op: Op): Answer
    requires d.blockSize > 0
  {
    match op
    case Read(room) => Data(ReadReply(d, extents, size, pos, room))
    case Seek(distance, whence) => Position(SeekTarget(size, pos, distance, whence))
  }

  /** The cursor moves by the bytes read, or to where a successful seek lands. */
  function NextPosition(pos: nat, a: Answer): nat {
    match a
    case Data(reply) => pos + |reply.data|
    case Position(result) => if result.Ok? then result.value else pos
  }

  function MemoryRun(contents: seq<byte>, pos: nat, ops: seq<Op>): seq<Answer>
    decreases |ops|
  {
    if ops == [] then []
    else
      var a := MemoryAnswer(contents, pos, ops[0]);
      [a] + MemoryRun(contents, NextPosition(pos, a), ops[1..])
  }

  ghost function AdapterRun(d: Device, extents: seq<Extent>, size: nat, pos: nat, ops: seq<Op>): seq<Answer>
    requires d.blockSize > 0
    decreases |ops|
  {
    if ops == [] then []
    else
      var a := AdapterAnswer(d, extents, size, pos, ops[0]);
      [a] + AdapterRun(d, extents, size, NextPosition(pos, a), ops[1..])
  }

  /** Seeking by nothing from the cursor tells where it is, and moves nothing. */
  lemma SeekTells(d: Device, extents: seq<Extent>, size: nat, pos: nat)
    requires d.blockSize > 0 && pos < TWO_TO_THE_63
    ensures var a := AdapterAnswer(d, extents, size, pos, Seek(0, 1));
            a == Position(Ok(pos)) && NextPosition(pos, a) == pos
  {}

  /** Two seeks from the cursor land where one by their sum does, if the first of them succeeds. */
  lemma SeeksAdd(d: Device, extents: seq<Extent>, size: nat, pos: nat, a: int, b: int)
    requires d.blockSize > 0 && AdapterAnswer(d, extents, size, pos, Seek(a, 1)).result.Ok?
    ensures var between := NextPosition(pos, AdapterAnswer(d, extents, size, pos, Seek(a, 1)));
            && between == pos + a
            && AdapterAnswer(d, extents, size, between, Seek(b, 1)) ==
                 AdapterAnswer(d, extents, size, pos, Seek(a + b, 1))
  {}

  /** A seek from the end by the distance to the cursor, and one from the start by the cursor, move nothing. */
  lemma SeeksBack(d: Device, extents: seq<Extent>, size: nat, pos: nat)
    requires d.blockSize > 0 && pos < TWO_TO_THE_63
    ensures NextPosition(pos, AdapterAnswer(d, extents, size, pos, Seek(pos, 0))) == pos
    ensures AdapterAnswer(d, extents, size, pos, Seek(pos - size, 2)) == Position(Ok(pos))
  {}

  /** Where a run of answers leaves the cursor. */
  function FinalPosition(pos: nat, answers: seq<Answer>): nat
    decreases |answers|
  {
    if answers == [] then pos else FinalPosition(NextPosition(pos, answers[0]), answers[1..])
  }

  /**
    Any run of reads and seeks gives, answer for answer, what a cursor over the file's bytes in memory gives, if the
    device can supply the file and the extents cover its recorded size.
   */
  lemma {:induction false} RunIsMemoryRun(
    d: Device, extents: seq<Extent>, file: seq<byte>, size: nat, pos: nat, ops: seq<Op>)
    requires d.blockSize > 0 && Collect(FileCells(d, extents)) == Ok(file) && size <= |file|
    ensures AdapterRun(d, extents, size, pos, ops) == MemoryRun(file[..size], pos, ops)
    decreases |ops|
  {
    if ops != [] {
      if ops[0].Read? {
        ReadIsMemoryRead(d, extents, file, size, pos, ops[0].room);
      }
      var a := MemoryAnswer(file[..size], pos, ops[0]);
      RunIsMemoryRun(d, extents, file, size, NextPosition(pos, a), ops[1..]);
    }
  }

  /** No run of operations leaves the int64 positions, so Read and Seek keep their contracts throughout it. */
  lemma {:induction false} PositionsStaySmall(d: Device, extents: seq<Extent>, size: nat, pos: nat, ops: seq<Op>)
    requires d.blockSize > 0 && size < TWO_TO_THE_63 && pos < TWO_TO_THE_63
    ensures FinalPosition(pos, AdapterRun(d, extents, size, pos, ops)) < TWO_TO_THE_63
    decreases |ops|
  {
    if ops != [] {
      var a := AdapterAnswer(d, extents, size, pos, ops[0]);
      if ops[0].Read? && pos < size {
        ReplyFits(d, extents, pos, Min(ops[0].room, size - pos));
      }
      PositionsStaySmall(d, extents, size, NextPosition(pos, a), ops[1..]);
    }
  }

  /** After any operations, rewinding and reading with positive buffers yields the whole file once. */
  lemma RewindRereadsAll(
    d: Device, extents: seq<Extent>, file: seq<byte>, size: nat, ops: seq<Op>, rooms: seq<nat>)
    requires d.blockSize > 0 && Collect(FileCells(d, extents)) == Ok(file) && size <= |file|
    requires |rooms| > size && forall i :: 0 <= i < |rooms| ==> rooms[i] > 0
    ensures var pos := FinalPosition(0, AdapterRun(d, extents, size, 0, ops));
            var rewound := NextPosition(pos, AdapterAnswer(d, extents, size, pos, Seek(0, SEEK_START)));
            ReadRun(d, extents, size, rewound, rooms) == Reading(file[..size], size, true)
  {
    RunReachesEnd(d, extents, file, size, 0, rooms);
    assert file[0..size] == file[..size];
  }
}
