/** An immutable storage device behind a container, and what one of its blocks holds. */
module Device {
  import opened Arithmetic
  import opened Outcomes

  /**
    `size` is the container size the reader was opened with. It need not equal the number of readable bytes. A device
    holds fewer than 2^63 bytes, so an offset that is negative as an int64 lies beyond it.
   */
  datatype Device = Device(bytes: seq<byte>, size: nat, blockSize: nat)
  {
    ghost predicate Valid() {
      0 < blockSize < TWO_TO_THE_32 && |bytes| < TWO_TO_THE_63 && size < TWO_TO_THE_64
    }

    /** Where a block starts: block * blockSize. */
    function Start(block: nat): nat {
      Times(block, blockSize)
    }

    /** The byte offset of a block, as 64-bit arithmetic computes it. */
    function BlockOffset(block: nat): u64 {
      U64(Start(block))
    }

    /** Whether the device holds a block, with no wrap-around. */
    predicate Holds(block: nat) {
      Start(block) < size && Start(block) + blockSize <= |bytes|
    }

    /** What readers take for readable: the wrapped offset lies inside the container. */
    predicate Readable(block: nat) {
      BlockOffset(block) < size && BlockOffset(block) + blockSize <= |bytes|
    }

    /** The bytes found at a readable block's wrapped offset. */
    function Block(block: nat): (b: seq<byte>)
      requires Readable(block)
      ensures |b| == blockSize
    {
      bytes[BlockOffset(block)..BlockOffset(block) + blockSize]
    }

    /** The byte at an address, if the block around it is readable. */
    function Cell(address: nat): Option<byte>
      requires blockSize > 0
    {
      var block := Quotient(address, blockSize);
      if Readable(block) then Some(Block(block)[Remainder(address, blockSize)]) else None
    }
  }

  /** The cell at position `pos` of a block. */
  lemma CellOf(d: Device, block: nat, pos: nat)
    requires pos < d.blockSize
    ensures d.Cell(d.Start(block) + pos) == if d.Readable(block) then Some(d.Block(block)[pos]) else None
  {
    PartsUnique(block, d.blockSize, pos);
  }

  /** Below 2^64 a cell is the device's byte at that address, if the device holds the block around it. */
  lemma CellIsDeviceByte(d: Device, address: nat)
    requires d.Valid() && address < TWO_TO_THE_64
    ensures var block := Quotient(address, d.blockSize);
            && (d.Holds(block) ==> address < |d.bytes|)
            && d.Cell(address) == if d.Holds(block) then Some(d.bytes[address]) else None
  {
    Parts(address, d.blockSize);
  }

  /** Inside a container of whole blocks, a cell is the device's byte at that address. */
  lemma CellInPlace(d: Device, blocks: nat, address: nat)
    requires d.Valid() && d.size == |d.bytes| == d.Start(blocks) && address < |d.bytes|
    ensures d.Cell(address) == Some(d.bytes[address])
  {
    var block := Quotient(address, d.blockSize);
    Parts(address, d.blockSize);
    if block >= blocks {
      TimesMono(blocks, block, d.blockSize);
    }
    TimesMono(block + 1, blocks, d.blockSize);
  }
}
