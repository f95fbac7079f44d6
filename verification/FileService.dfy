/** File contents from extents (internal/services/filesystem_service.go). */
module FileService {
  import opened Arithmetic
  import opened Cells
  import opened Outcomes
  import opened Device
  import opened ContainerReader

  /** A stretch of a file. Physical block 0 marks a hole. */
  datatype Extent = Extent(logicalSize: u64, physicalBlock: u64)

  datatype FileRecord = FileRecord(size: u64, extents: seq<Extent>)

  // ---------------------------------------------------------------------------------------------------------------
  // The reference file: the concatenation of its extents
  // ---------------------------------------------------------------------------------------------------------------

  function CellRun(d: Device, address: nat, n: nat): (c: Cells)
    requires d.blockSize > 0
    ensures |c| == n
  {
    seq(n, i requires 0 <= i < n => d.Cell(address + i))
  }

  /** Zeros for a hole, device bytes otherwise. */
  function ExtentCells(d: Device, e: Extent): (c: Cells)
    requires d.blockSize > 0
    ensures |c| == e.logicalSize
  {
    if e.physicalBlock == 0 then seq(e.logicalSize, _ => Some(0))
    else CellRun(d, d.Start(e.physicalBlock), e.logicalSize)
  }

  function FileCells(d: Device, extents: seq<Extent>): Cells
    requires d.blockSize > 0
  {
    if extents == [] then []
    else FileCells(d, extents[..|extents| - 1]) + ExtentCells(d, extents[|extents| - 1])
  }

  // ---------------------------------------------------------------------------------------------------------------
  // The reader
  // ---------------------------------------------------------------------------------------------------------------

  lemma CellRunSplit(d: Device, address: nat, m: nat, n: nat)
    requires d.blockSize > 0
    ensures CellRun(d, address, m + n) == CellRun(d, address, m) + CellRun(d, address + m, n)
  {}

  /** The cells of part of a readable block are the bytes of that part. */
  lemma BlockCells(d: Device, address: nat, block: nat, pos: nat, n: nat)
    requires d.blockSize > 0 && d.Readable(block) && address == d.Start(block) + pos && pos + n <= d.blockSize
    ensures Collect(CellRun(d, address, n)) == Ok(d.Block(block)[pos..pos + n])
  {
    var c, b := CellRun(d, address, n), d.Block(block);
    forall i | 0 <= i < n
      ensures c[i] == Some(b[pos + i])
    {
      CellOf(d, block, pos + i);
    }
    assert Collect(c).value == b[pos..pos + n];
  }

  /** One more block: the run grows by the bytes taken from it. */
  lemma BlockExtendsRun(d: Device, address: nat, done: nat, block: nat, pos: nat, n: nat)
    requires d.blockSize > 0 && d.Readable(block) && address + done == d.Start(block) + pos
    requires pos + n <= d.blockSize && Collect(CellRun(d, address, done)).Ok?
    ensures Collect(CellRun(d, address, done + n)) ==
              Ok(Collect(CellRun(d, address, done)).value + d.Block(block)[pos..pos + n])
  {
    BlockCells(d, address + done, block, pos, n);
    CellRunSplit(d, address, done, n);
    CollectAppend(CellRun(d, address, done), CellRun(d, address + done, n));
  }

  /** An unreadable block: the whole run is unavailable. */
  lemma BlockFailsRun(d: Device, address: nat, done: nat, block: nat, pos: nat, length: nat)
    requires pos < d.blockSize && !d.Readable(block) && address + done == d.Start(block) + pos && done < length
    ensures Collect(CellRun(d, address, length)) == Err
  {
    CellOf(d, block, pos);
    assert CellRun(d, address, length)[done].None?;
  }

  /** How far a block-by-block read of `length` bytes at `address` has come. */
  ghost predicate Progress(d: Device, address: nat, length: nat, data: seq<byte>, block: nat, pos: nat)
    requires d.blockSize > 0
  {
    && pos < d.blockSize && |data| <= length
    && Collect(CellRun(d, address, |data|)) == Ok(data)
    && (|data| < length ==> d.Start(block) + pos == address + |data| && d.Start(block) < TWO_TO_THE_64)
  }

  lemma ProgressStart(d: Device, address: u64, length: nat)
    requires d.blockSize > 0
    ensures Progress(d, address, length, [], Quotient(address, d.blockSize), Remainder(address, d.blockSize))
  {
    Parts(address, d.blockSize);
    assert Collect(CellRun(d, address, 0)).value == [];
  }

  /** After a readable block comes one whose number and offset do not wrap. */
  lemma ProgressNext(d: Device, address: nat, length: nat, data: seq<byte>, block: nat, pos: nat, n: nat)
    requires d.Valid() && Progress(d, address, length, data, block, pos)
    requires |data| < length && d.Readable(block) && n == Min(d.blockSize - pos, length - |data|)
    ensures Progress(d, address, length, data + d.Block(block)[pos..pos + n], U64(block + 1), 0)
  {
    BlockExtendsRun(d, address, |data|, block, pos, n);
    if |data| + n < length {
      TimesAtLeast(block + 1, d.blockSize);
    }
  }

  /** No device reaches up to 2^64, so a run across it is not available. */
  lemma RunAcrossEnd(d: Device, address: u64, length: nat)
    requires d.Valid() && address + length >= TWO_TO_THE_64
    ensures Collect(CellRun(d, address, length)) == Err
  {
    var last := TWO_TO_THE_64 - 1;
    CellIsDeviceByte(d, last);
    assert CellRun(d, address, length)[last - address].None?;
  }

  /** An extent whose addresses 64-bit offsets can express, and if it is a hole, whose zeros one slice can hold. */
  predicate Fits(d: Device, e: Extent) {
    && d.Start(e.physicalBlock) + e.logicalSize <= TWO_TO_THE_64
    && (e.physicalBlock == 0 ==> e.logicalSize < TWO_TO_THE_63)
  }

  /** All extents fit, and the running offset of the extent loop does not wrap. */
  ghost predicate LayoutFits(d: Device, extents: seq<Extent>)
    requires d.blockSize > 0
  {
    && |FileCells(d, extents)| < TWO_TO_THE_64
    && forall e :: e in extents ==> Fits(d, e)
  }

  /** What reading a range of the file means: its bytes, clipped to the end, or an error if the device lacks some. */
  ghost function FileRange(d: Device, extents: seq<Extent>, offset: nat, length: nat): Outcome<seq<byte>>
    requires d.blockSize > 0
  {
    if extents == [] then Err else Collect(Window(FileCells(d, extents), offset, length))
  }

  /** One more extent extends the window by the part of the extent it covers. */
  lemma ExtentExtendsRange(d: Device, extents: seq<Extent>, k: nat, offset: nat, length: nat)
    requires d.blockSize > 0 && k < |extents|
    ensures var before, piece := FileCells(d, extents[..k]), ExtentCells(d, extents[k]);
            var start, end := Max(offset - |before|, 0), Min(offset + length - |before|, |piece|);
            && FileCells(d, extents[..k + 1]) == before + piece
            && Window(before + piece, offset, length) ==
                 Window(before, offset, length) + (if start < end then piece[start..end] else [])
  {
    assert extents[..k + 1][..k] == extents[..k];
    WindowAppend(FileCells(d, extents[..k]), ExtentCells(d, extents[k]), offset, length);
  }

  /** If a prefix of the extents cannot supply its part of the range, the file cannot supply the range. */
  lemma {:induction false} PrefixFailsRange(d: Device, extents: seq<Extent>, k: nat, offset: nat, length: nat)
    requires d.blockSize > 0 && k <= |extents|
    requires Collect(Window(FileCells(d, extents[..k]), offset, length)) == Err
    ensures Collect(Window(FileCells(d, extents), offset, length)) == Err
    decreases |extents| - k
  {
    if k == |extents| {
      assert extents[..k] == extents;
    } else {
      ExtentExtendsRange(d, extents, k, offset, length);
      var w := Window(FileCells(d, extents[..k + 1]), offset, length);
      CollectPrefixFails(w, |Window(FileCells(d, extents[..k]), offset, length)|);
      PrefixFailsRange(d, extents, k + 1, offset, length);
    }
  }

  lemma {:induction false} PrefixNotLonger(d: Device, extents: seq<Extent>, k: nat)
    requires d.blockSize > 0 && k <= |extents|
    ensures |FileCells(d, extents[..k])| <= |FileCells(d, extents)|
    decreases |extents| - k
  {
    if k == |extents| {
      assert extents[..k] == extents;
    } else {
      assert extents[..k + 1][..k] == extents[..k];
      PrefixNotLonger(d, extents, k + 1);
    }
  }

  /** Extent `k` contains `offset` and starts before the wrapped end of the range: the loop reads from it. */
  ghost predicate Reached(d: Device, extents: seq<Extent>, k: nat, offset: nat, length: nat)
    requires d.blockSize > 0
  {
    && k < |extents|
    && |FileCells(d, extents[..k])| <= offset < |FileCells(d, extents[..k + 1])|
    && |FileCells(d, extents[..k])| < offset + length - TWO_TO_THE_64
  }

  /**
    What reading a range whose end wraps around 2^64 returns: a panic if a hole is read from, an error if another extent
    is, nothing otherwise.
   */
  ghost function WrappedRange(d: Device, extents: seq<Extent>, offset: nat, length: nat): Outcome<seq<byte>>
    requires d.blockSize > 0
  {
    if extents == [] then Err
    else if exists k: nat :: Reached(d, extents, k, offset, length) && extents[k].physicalBlock == 0 then Panic
    else if exists k: nat :: Reached(d, extents, k, offset, length) then Err
    else Ok([])
  }

  /** The result of reading a range of a file whose layout fits. */
  ghost function RangeResult(d: Device, extents: seq<Extent>, offset: nat, length: nat): Outcome<seq<byte>>
    requires d.blockSize > 0
  {
    if offset + length < TWO_TO_THE_64 then FileRange(d, extents, offset, length)
    else WrappedRange(d, extents, offset, length)
  }

  /** The state of the extent loop after `k` extents. While offset + length wraps around 2^64, nothing has been read. */
  ghost predicate RangeProgress(
    d: Device, extents: seq<Extent>, k: nat, current: nat, offset: nat, length: nat, data: seq<byte>)
    requires d.blockSize > 0
  {
    && k <= |extents|
    && current == |FileCells(d, extents[..k])|
    && (offset + length < TWO_TO_THE_64 ==> Collect(Window(FileCells(d, extents[..k]), offset, length)) == Ok(data))
    && (offset + length >= TWO_TO_THE_64 ==>
          data == [] && forall i: nat :: i < k ==> !Reached(d, extents, i, offset, length))
  }

  /** The range within an extent to read: where it starts and how many bytes. */
  datatype Part = Nothing | Part(start: u64, bytes: u64)

  /** The overlap of an extent with the requested range, in the loop's 64-bit arithmetic. */
  function Overlap(size: u64, current: u64, offset: u64, length: u64): Part {
    var extentLogicalEnd := U64(current as int + size);
    var rangeEnd := U64(offset as int + length);
    if extentLogicalEnd > offset && current < rangeEnd then
      var readStart: u64 := if offset > current then offset - current else 0;
      var readEnd: u64 := if rangeEnd < extentLogicalEnd then rangeEnd - current else size;
      Part(readStart, U64(readEnd as int - readStart))
    else Nothing
  }

  /** Without wrap-around the overlap is the true intersection. */
  lemma OverlapPlain(size: u64, current: u64, offset: u64, length: u64)
    requires current + size < TWO_TO_THE_64 && offset + length < TWO_TO_THE_64
    ensures var start, end := Max(offset - current, 0), Min(offset + length - current, size);
            match Overlap(size, current, offset, length)
            case Nothing => start >= end
            case Part(from, bytes) => from == start && bytes == end - start
  {}

  /** When the end of the range wraps around, an extent that contains the offset can overlap, with all of `length`. */
  lemma OverlapWrapped(size: u64, current: u64, offset: u64, length: u64)
    requires current + size < TWO_TO_THE_64 && offset + length >= TWO_TO_THE_64
    ensures Overlap(size, current, offset, length) ==
              if current < offset + length - TWO_TO_THE_64 && offset < current + size then
                Part(offset - current, length)
              else
                Nothing
  {}

  /** A window that grows by `gain` when one more extent is added. */
  lemma RangeGains(d: Device, extents: seq<Extent>, k: nat, offset: nat, length: nat, gain: Cells)
    requires d.blockSize > 0 && k < |extents|
    requires var before, after := FileCells(d, extents[..k]), FileCells(d, extents[..k + 1]);
             Window(after, offset, length) == Window(before, offset, length) + gain
             && Collect(Window(before, offset, length)).Ok?
    ensures var before, after := FileCells(d, extents[..k]), FileCells(d, extents[..k + 1]);
            if Collect(gain).Ok? then
              Collect(Window(after, offset, length)) ==
                Ok(Collect(Window(before, offset, length)).value + Collect(gain).value)
            else
              Collect(Window(FileCells(d, extents), offset, length)) == Err
  {
    CollectAppend(Window(FileCells(d, extents[..k]), offset, length), gain);
    if !Collect(gain).Ok? {
      PrefixFailsRange(d, extents, k + 1, offset, length);
    }
  }

  /** What the loop body must obtain from extent `k`. */
  ghost function Gain(d: Device, e: Extent, current: nat, offset: nat, length: nat): Cells
    requires d.blockSize > 0
  {
    var start, end := Max(offset - current, 0), Min(offset + length - current, e.logicalSize);
    if start < end then ExtentCells(d, e)[start..end] else []
  }

  /** What one extent contributes: its gain, or with a wrapped range a failure if it is read from. */
  ghost predicate GainResult(d: Device, e: Extent, current: nat, offset: nat, length: nat, r: Outcome<seq<byte>>)
    requires d.blockSize > 0
  {
    && (offset + length < TWO_TO_THE_64 ==> r == Collect(Gain(d, e, current, offset, length)))
    && (offset + length >= TWO_TO_THE_64 ==>
          r == if current < offset + length - TWO_TO_THE_64 && offset < current + e.logicalSize then
                 (if e.physicalBlock == 0 then Panic else Err)
               else Ok([]))
  }

  /** What reading part of an extent returns. */
  ghost predicate PartResult(d: Device, e: Extent, start: u64, bytes: u64, r: Outcome<seq<byte>>)
    requires d.blockSize > 0
  {
    if e.physicalBlock == 0 then r == if bytes >= TWO_TO_THE_63 then Panic else Ok(seq(bytes, _ => 0))
    else
      bytes == 0 || d.Start(e.physicalBlock) + start < TWO_TO_THE_64 ==>
        r == Collect(CellRun(d, d.Start(e.physicalBlock) + start, bytes))
  }

  /** Inside a fitting extent, that is part of the extent. */
  lemma PartInside(d: Device, e: Extent, start: u64, bytes: u64, r: Outcome<seq<byte>>)
    requires d.blockSize > 0 && Fits(d, e) && PartResult(d, e, start, bytes, r)
    requires start + bytes <= e.logicalSize
    ensures r == Collect(ExtentCells(d, e)[start..start + bytes])
  {
    if e.physicalBlock == 0 {
      assert Collect(ExtentCells(d, e)[start..start + bytes]).value == r.value;
    } else {
      assert ExtentCells(d, e)[start..start + bytes] == CellRun(d, d.Start(e.physicalBlock) + start, bytes);
    }
  }

  /** Reading the overlap of an extent obtains its gain. */
  lemma OverlapGain(d: Device, e: Extent, current: u64, offset: u64, length: u64, r: Outcome<seq<byte>>)
    requires d.Valid() && Fits(d, e) && current + e.logicalSize < TWO_TO_THE_64
    requires match Overlap(e.logicalSize, current, offset, length)
             case Nothing => r == Ok([])
             case Part(start, bytes) => PartResult(d, e, start, bytes, r)
    ensures GainResult(d, e, current, offset, length, r)
  {
    var overlap := Overlap(e.logicalSize, current, offset, length);
    if offset + length >= TWO_TO_THE_64 {
      OverlapWrapped(e.logicalSize, current, offset, length);
      if overlap.Part? && e.physicalBlock != 0 {
        RunAcrossEnd(d, d.Start(e.physicalBlock) + overlap.start, length);
      }
    } else {
      OverlapPlain(e.logicalSize, current, offset, length);
      assert Collect([]).value == [];
      if overlap.Part? {
        PartInside(d, e, overlap.start, overlap.bytes, r);
        assert overlap.bytes == 0 ==> ExtentCells(d, e)[overlap.start..overlap.start] == [];
      }
    }
  }

  lemma ExtentFits(d: Device, extents: seq<Extent>, k: nat)
    requires d.blockSize > 0 && LayoutFits(d, extents) && k < |extents|
    ensures |FileCells(d, extents[..k])| + extents[k].logicalSize <= |FileCells(d, extents)| < TWO_TO_THE_64
    ensures |FileCells(d, extents[..k + 1])| == |FileCells(d, extents[..k])| + extents[k].logicalSize
    ensures Fits(d, extents[k])
  {
    assert extents[..k + 1][..k] == extents[..k];
    PrefixNotLonger(d, extents, k + 1);
    assert extents[k] in extents;
  }

  /** One more extent, without wrap-around: the window grows by the extent's gain, or the whole range fails. */
  lemma RangeGrows(d: Device, extents: seq<Extent>, k: nat, offset: nat, length: nat, data: seq<byte>)
    requires d.blockSize > 0 && k < |extents|
    requires Collect(Window(FileCells(d, extents[..k]), offset, length)) == Ok(data)
    ensures var gain := Collect(Gain(d, extents[k], |FileCells(d, extents[..k])|, offset, length));
            if gain.Ok? then Collect(Window(FileCells(d, extents[..k + 1]), offset, length)) == Ok(data + gain.value)
            else FileRange(d, extents, offset, length) == Err
  {
    ExtentExtendsRange(d, extents, k, offset, length);
    RangeGains(d, extents, k, offset, length, Gain(d, extents[k], |FileCells(d, extents[..k])|, offset, length));
  }

  /** One turn of the extent loop that appends. */
  lemma RangeNext(
    d: Device, extents: seq<Extent>, k: nat, current: nat, offset: nat, length: nat, data: seq<byte>, part: seq<byte>)
    requires d.blockSize > 0 && LayoutFits(d, extents) && k < |extents|
    requires RangeProgress(d, extents, k, current, offset, length, data)
    requires GainResult(d, extents[k], current, offset, length, Ok(part))
    ensures RangeProgress(d, extents, k + 1, current + extents[k].logicalSize, offset, length, data + part)
  {
    ExtentFits(d, extents, k);
    if offset + length < TWO_TO_THE_64 {
      RangeGrows(d, extents, k, offset, length, data);
    }
  }

  /** At most one extent contains the offset. */
  lemma ReachedOnce(d: Device, extents: seq<Extent>, i: nat, k: nat, offset: nat, length: nat)
    requires d.blockSize > 0 && Reached(d, extents, i, offset, length) && Reached(d, extents, k, offset, length)
    ensures i == k
  {
    if i < k {
      assert extents[..k][..i + 1] == extents[..i + 1];
      PrefixNotLonger(d, extents[..k], i + 1);
    } else if k < i {
      assert extents[..i][..k + 1] == extents[..k + 1];
      PrefixNotLonger(d, extents[..i], k + 1);
    }
  }

  /** A wrapped range fails at the extent that is reached. */
  lemma WrappedRangeStops(d: Device, extents: seq<Extent>, k: nat, offset: nat, length: nat)
    requires d.blockSize > 0 && Reached(d, extents, k, offset, length)
    ensures WrappedRange(d, extents, offset, length) == if extents[k].physicalBlock == 0 then Panic else Err
  {
    forall i: nat | Reached(d, extents, i, offset, length)
      ensures i == k
    {
      ReachedOnce(d, extents, i, k, offset, length);
    }
  }

  /** One turn of the extent loop that fails. */
  lemma RangeStops(
    d: Device, extents: seq<Extent>, k: nat, current: nat, offset: u64, length: u64, data: seq<byte>,
    r: Outcome<seq<byte>>)
    requires d.blockSize > 0 && LayoutFits(d, extents) && k < |extents|
    requires RangeProgress(d, extents, k, current, offset, length, data)
    requires GainResult(d, extents[k], current, offset, length, r) && !r.Ok?
    ensures r == RangeResult(d, extents, offset, length)
  {
    ExtentFits(d, extents, k);
    if offset + length < TWO_TO_THE_64 {
      RangeGrows(d, extents, k, offset, length, data);
    } else {
      WrappedRangeStops(d, extents, k, offset, length);
    }
  }

  /**
    If the device can supply the range, the result is the range exactly when offset + length does not wrap around 2^64
    or the range starts at or beyond the end of the file.
   */
  lemma RangeIsDeliveredIff(d: Device, extents: seq<Extent>, offset: u64, length: u64)
    requires d.blockSize > 0 && FileRange(d, extents, offset, length).Ok?
    ensures RangeResult(d, extents, offset, length) == FileRange(d, extents, offset, length) <==>
              offset + length < TWO_TO_THE_64 || offset >= |FileCells(d, extents)|
  {
    var w := Window(FileCells(d, extents), offset, length);
    if offset >= |FileCells(d, extents)| {
      NoneReachedBeyondEnd(d, extents, offset, length);
      assert w == [];
      assert Collect(w).value == [];
    } else if offset + length >= TWO_TO_THE_64 {
      assert |w| > 0;
      assert |Collect(w).value| == |w|;
    }
  }

  lemma NoneReachedBeyondEnd(d: Device, extents: seq<Extent>, offset: nat, length: nat)
    requires d.blockSize > 0 && offset >= |FileCells(d, extents)|
    ensures forall k: nat :: !Reached(d, extents, k, offset, length)
  {
    forall k: nat | k < |extents|
      ensures !Reached(d, extents, k, offset, length)
    {
      PrefixNotLonger(d, extents, k + 1);
    }
  }

  /** Reading panics exactly when the range wraps and starts in a hole that begins before its wrapped end. */
  lemma RangePanicsIff(d: Device, extents: seq<Extent>, offset: u64, length: u64)
    requires d.blockSize > 0
    ensures RangeResult(d, extents, offset, length).Panic? <==>
              && offset + length >= TWO_TO_THE_64
              && exists k: nat :: Reached(d, extents, k, offset, length) && extents[k].physicalBlock == 0
  {}

  /** A ten-byte hole, read from 5 to the end and beyond: at 2^64 the bytes are lost, one further the reader panics. */
  lemma WrappedRangeIsLost(d: Device)
    requires d.blockSize > 0
    ensures FileRange(d, [Extent(10, 0)], 5, TWO_TO_THE_64 - 6) == Ok([0, 0, 0, 0, 0])
    ensures RangeResult(d, [Extent(10, 0)], 5, TWO_TO_THE_64 - 5) == Ok([])
    ensures RangeResult(d, [Extent(10, 0)], 5, TWO_TO_THE_64 - 4) == Panic
  {
    var extents := [Extent(10, 0)];
    assert extents[..0] == [] && extents[..1] == extents && FileCells(d, []) == [];
    var cells := FileCells(d, extents);
    assert |cells| == 10 && forall i :: 0 <= i < 10 ==> cells[i] == Some(0);
    var w := Window(cells, 5, TWO_TO_THE_64 - 6);
    assert w == cells[5..10];
    assert forall i :: 0 <= i < 5 ==> w[i] == cells[5 + i] == Some(0);
    assert Collect(w).value == [0, 0, 0, 0, 0];
    assert Reached(d, extents, 0, 5, TWO_TO_THE_64 - 4);
  }

  lemma RangeDone(d: Device, extents: seq<Extent>, current: nat, offset: nat, length: nat, data: seq<byte>)
    requires d.blockSize > 0 && extents != []
    requires RangeProgress(d, extents, |extents|, current, offset, length, data)
    ensures RangeResult(d, extents, offset, length) == Ok(data)
  {
    assert extents[..|extents|] == extents;
  }

  /** What the extent loop keeps: its progress, provided the layout fits. */
  ghost predicate LoopState(
    d: Device, extents: seq<Extent>, k: nat, current: nat, offset: nat, length: nat, data: seq<byte>)
    requires d.blockSize > 0
  {
    LayoutFits(d, extents) ==> RangeProgress(d, extents, k, current, offset, length, data)
  }

  ghost predicate Answers(d: Device, extents: seq<Extent>, offset: nat, length: nat, r: Outcome<seq<byte>>)
    requires d.blockSize > 0
  {
    LayoutFits(d, extents) ==> r == RangeResult(d, extents, offset, length)
  }

  ghost predicate OverlapResult(d: Device, e: Extent, current: nat, offset: nat, length: nat, r: Outcome<seq<byte>>)
    requires d.blockSize > 0
  {
    current + e.logicalSize < TWO_TO_THE_64 && Fits(d, e) ==> GainResult(d, e, current, offset, length, r)
  }

  lemma LoopStart(d: Device, extents: seq<Extent>, offset: nat, length: nat)
    requires d.blockSize > 0
    ensures LoopState(d, extents, 0, 0, offset, length, [])
  {
    assert extents[..0] == [];
    assert Collect(Window(FileCells(d, []), offset, length)).value == [];
  }

  /** One turn of the extent loop. */
  lemma LoopTurn(
    d: Device, extents: seq<Extent>, k: nat, current: u64, offset: u64, length: u64, data: seq<byte>,
    r: Outcome<seq<byte>>)
    requires d.blockSize > 0 && k < |extents| && LoopState(d, extents, k, current, offset, length, data)
    requires OverlapResult(d, extents[k], current, offset, length, r)
    ensures if r.Ok? then
              LoopState(d, extents, k + 1, U64(current + extents[k].logicalSize), offset, length, data + r.value)
            else
              Answers(d, extents, offset, length, r)
  {
    if LayoutFits(d, extents) {
      ExtentFits(d, extents, k);
      if r.Ok? {
        RangeNext(d, extents, k, current, offset, length, data, r.value);
      } else {
        RangeStops(d, extents, k, current, offset, length, data, r);
      }
    }
  }

  lemma LoopEnd(d: Device, extents: seq<Extent>, current: nat, offset: nat, length: nat, data: seq<byte>)
    requires d.blockSize > 0 && extents != []
    requires LoopState(d, extents, |extents|, current, offset, length, data)
    ensures Answers(d, extents, offset, length, Ok(data))
  {
    if LayoutFits(d, extents) {
      RangeDone(d, extents, current, offset, length, data);
    }
  }

  class FileSystemService {
    const container: ContainerReader
    const files: map<u64, FileRecord>

    constructor (container: ContainerReader, files: map<u64, FileRecord>)
      ensures this.container == container && this.files == files
    {
      this.container, this.files := container, files;
    }

    ghost predicate Valid()
      reads container
    {
      container.Valid()
    }

    /** Reads `length` bytes at a device address. */
    method ReadPhysical(address: u64, length: u64) returns (r: Outcome<seq<byte>>)
      requires Valid()
      modifies container
      ensures Valid()
      ensures r == Collect(CellRun(container.device, address, length))
    {
      var blockOffset := address / container.device.blockSize;
      var blockInternalOffset := address % container.device.blockSize;
      QuotientIsDivision(address, container.device.blockSize);
      Parts(address, container.device.blockSize);
      ProgressStart(container.device, address, length);
      r := ReadBlockwise(address, length, blockOffset, blockInternalOffset);
    }

    /** The block loop. It ends: every block supplies at least one byte. */
    method ReadBlockwise(ghost address: u64, length: u64, firstBlock: u64, firstPos: nat)
      returns (r: Outcome<seq<byte>>)
      requires Valid() && Progress(container.device, address, length, [], firstBlock, firstPos)
      modifies container
      ensures Valid()
      ensures r == Collect(CellRun(container.device, address, length))
    {
      ghost var d := container.device;
      var extentData: seq<byte> := [];
      var remainingBytes: u64 := length;
      var currentBlock, blockInternalPos := firstBlock, firstPos;
      while remainingBytes > 0
        invariant Valid() && 0 <= blockInternalPos < d.blockSize
        invariant |extentData| + remainingBytes == length
        invariant Progress(d, address, length, extentData, currentBlock, blockInternalPos)
      {
        var blockData := container.ReadBlock(currentBlock);
        if !blockData.Ok? {
          BlockFailsRun(d, address, |extentData|, currentBlock, blockInternalPos, length);
          return Err;
        }
        var bytesInBlock := |blockData.value| - blockInternalPos;
        if bytesInBlock > remainingBytes {
          bytesInBlock := remainingBytes;
        }
        ProgressNext(d, address, length, extentData, currentBlock, blockInternalPos, bytesInBlock);
        if bytesInBlock > 0 {
          extentData := extentData + blockData.value[blockInternalPos..blockInternalPos + bytesInBlock];
          remainingBytes := remainingBytes - bytesInBlock;
        }
        currentBlock := U64(currentBlock as int + 1);
        blockInternalPos := 0;
      }
      r := Ok(extentData);
    }

    /** Part of one extent: zeros for a hole, device bytes otherwise. */
    method ReadExtent(extent: Extent, readStart: u64, bytesToRead: u64) returns (r: Outcome<seq<byte>>)
      requires Valid()
      modifies container
      ensures Valid()
      ensures PartResult(container.device, extent, readStart, bytesToRead, r)
    {
      if extent.physicalBlock == 0 {
        if bytesToRead >= TWO_TO_THE_63 {
          return Panic;  // make: length out of range
        }
        r := Ok(seq(bytesToRead, _ => 0));
      } else {
        TimesIsProduct(extent.physicalBlock, container.device.blockSize);
        var physicalOffset := U64(U64(extent.physicalBlock * container.device.blockSize) as int + readStart);
        r := ReadPhysical(physicalOffset, bytesToRead);
        if bytesToRead == 0 {
          assert CellRun(container.device, physicalOffset, 0)
              == CellRun(container.device, container.device.Start(extent.physicalBlock) + readStart, 0);
        }
      }
    }

    /** Reads a range of a file, extent by extent. */
    method ReadFileRange(inode: u64, offset: u64, length: u64) returns (r: Outcome<seq<byte>>)
      requires Valid()
      modifies container
      ensures Valid()
      ensures inode !in files ==> r == Err
      ensures inode in files && LayoutFits(container.device, files[inode].extents) ==>
                r == RangeResult(container.device, files[inode].extents, offset, length)
    {
      if inode !in files {
        return Err;
      }
      var extents := files[inode].extents;
      if |extents| == 0 {
        return Err;
      }
      r := ReadExtents(extents, offset, length);
    }

    /** The extent loop. */
    method ReadExtents(extents: seq<Extent>, offset: u64, length: u64) returns (r: Outcome<seq<byte>>)
      requires Valid() && extents != []
      modifies container
      ensures Valid()
      ensures Answers(container.device, extents, offset, length, r)
    {
      ghost var d := container.device;
      var data: seq<byte> := [];
      var currentLogicalOffset: u64 := 0;
      var k := 0;
      LoopStart(d, extents, offset, length);
      while k < |extents|
        invariant k <= |extents| && Valid()
        invariant LoopState(d, extents, k, currentLogicalOffset, offset, length, data)
      {
        var part := ReadOverlap(extents[k], currentLogicalOffset, offset, length);
        LoopTurn(d, extents, k, currentLogicalOffset, offset, length, data, part);
        if !part.Ok? {
          return part;
        }
        data := data + part.value;
        currentLogicalOffset := U64(currentLogicalOffset as int + extents[k].logicalSize);
        k := k + 1;
      }
      LoopEnd(d, extents, currentLogicalOffset, offset, length, data);
      r := Ok(data);
    }

    /** The part of one extent that the range covers, as the loop body computes it. */
    method ReadOverlap(extent: Extent, currentLogicalOffset: u64, offset: u64, length: u64)
      returns (r: Outcome<seq<byte>>)
      requires Valid()
      modifies container
      ensures Valid()
      ensures OverlapResult(container.device, extent, currentLogicalOffset, offset, length, r)
    {
      ghost var d := container.device;
      var overlap := Overlap(extent.logicalSize, currentLogicalOffset, offset, length);
      if overlap.Part? {
        r := ReadExtent(extent, overlap.start, overlap.bytes);
      } else {
        r := Ok([]);
      }
      if currentLogicalOffset + extent.logicalSize < TWO_TO_THE_64 && Fits(d, extent) {
        OverlapGain(d, extent, currentLogicalOffset, offset, length, r);
      }
    }

    /** The whole file. */
    method ReadFile(inode: u64) returns (r: Outcome<seq<byte>>)
      requires Valid()
      modifies container
      ensures Valid()
      ensures inode !in files ==> r == Err
      ensures inode in files && files[inode].size == 0 ==> r == Ok([])
      ensures inode in files && files[inode].size > 0 && LayoutFits(container.device, files[inode].extents) ==>
                r == FileRange(container.device, files[inode].extents, 0, files[inode].size)
    {
      if inode !in files {
        return Err;
      }
      var fileSize := files[inode].size;
      if fileSize == 0 {
        return Ok([]);
      }
      r := ReadFileRange(inode, 0, fileSize);
    }
  }
}
