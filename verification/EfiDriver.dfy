/** Assembly of the EFI driver from its extents (internal/parsers/efi_jumpstart/efi_driver_extractor.go). */
module EfiDriver {
  import opened Cells
  import opened Outcomes

  const MAGIC: nat := 0x4A53_4452  // 'RDSJ', least significant character first
  const VERSION: nat := 1

  datatype Prange = Prange(start: int, count: nat)

  datatype Jumpstart = Jumpstart(magic: nat, version: nat, fileLen: nat, extents: seq<Prange>)
  {
    predicate IsValid() {
      magic == MAGIC && version == VERSION
    }
  }

  /** The byte at an address of the storage; a negative address has none. */
  function StorageCell(storage: seq<byte>, address: int): Option<byte> {
    if 0 <= address < |storage| then Some(storage[address]) else None
  }

  function StorageRun(storage: seq<byte>, address: int, n: nat): Cells {
    seq(n, i requires 0 <= i < n => StorageCell(storage, address + i))
  }

  /** Where an extent starts and how many bytes it spans, in the extractor's 64-bit arithmetic. */
  function Offset(e: Prange, blockSize: nat): int {
    I64(e.start * blockSize)
  }

  function Span(e: Prange, blockSize: nat): nat {
    Max(I64(e.count * blockSize), 0)
  }

  function ExtentCells(storage: seq<byte>, e: Prange, blockSize: nat): Cells {
    StorageRun(storage, Offset(e, blockSize), Span(e, blockSize))
  }

  /** All extents, one behind the other. */
  function Stream(storage: seq<byte>, extents: seq<Prange>, blockSize: nat): Cells {
    if extents == [] then []
    else Stream(storage, extents[..|extents| - 1], blockSize)
         + ExtentCells(storage, extents[|extents| - 1], blockSize)
  }

  /** The first `fileLen` bytes of the extents, if they cover that many and the storage holds them. */
  ghost function Driver(storage: seq<byte>, j: Jumpstart, blockSize: nat): Outcome<seq<byte>> {
    var all := Stream(storage, j.extents, blockSize);
    if !j.IsValid() || |all| < j.fileLen then Err else Collect(all[..j.fileLen])
  }

  /** ReadAt: all the bytes asked for, or an error. */
  method ReadAt(storage: seq<byte>, address: int, n: nat) returns (r: Outcome<seq<byte>>)
    requires n > 0
    ensures r == Collect(StorageRun(storage, address, n))
  {
    var run := StorageRun(storage, address, n);
    if address < 0 {
      assert run[0] == StorageCell(storage, address + 0) == None;
      return Err;
    }
    if address + n > |storage| {
      assert run[n - 1] == StorageCell(storage, address + (n - 1)) == None;
      return Err;
    }
    RunInRange(storage, address, n);
    r := Ok(storage[address..address + n]);
  }

  /** What has been collected after `k` extents. */
  ghost predicate Collected(
    storage: seq<byte>, extents: seq<Prange>, blockSize: nat, k: nat, need: nat, data: seq<byte>)
  {
    && k <= |extents| && |data| <= need
    && Collect(Window(Stream(storage, extents[..k], blockSize), 0, need)) == Ok(data)
  }

  /** The part of extent `k` still needed. */
  function Needed(storage: seq<byte>, e: Prange, blockSize: nat, need: nat, have: nat): Cells
    requires have <= need
  {
    StorageRun(storage, Offset(e, blockSize), Min(Span(e, blockSize), need - have))
  }

  lemma StreamNext(storage: seq<byte>, extents: seq<Prange>, blockSize: nat, k: nat, need: nat, data: seq<byte>)
    requires k < |extents| && Collected(storage, extents, blockSize, k, need, data)
    ensures var part := Collect(Needed(storage, extents[k], blockSize, need, |data|));
            Collect(Window(Stream(storage, extents[..k + 1], blockSize), 0, need)) ==
              if part.Ok? then Ok(data + part.value) else Err
  {
    var before, piece := Stream(storage, extents[..k], blockSize), ExtentCells(storage, extents[k], blockSize);
    var part := Needed(storage, extents[k], blockSize, need, |data|);
    assert extents[..k + 1][..k] == extents[..k];
    WindowAppend(before, piece, 0, need);
    assert piece[..|part|] == part;
    assert |Window(before, 0, need)| == |data|;
    CollectAppend(Window(before, 0, need), part);
    assert Window(before + piece, 0, need) == Window(before, 0, need) + part;
  }

  lemma CollectedNext(storage: seq<byte>, extents: seq<Prange>, blockSize: nat, k: nat, need: nat, data: seq<byte>)
    requires k < |extents| && Collected(storage, extents, blockSize, k, need, data)
    ensures var part := Collect(Needed(storage, extents[k], blockSize, need, |data|));
            part.Ok? ==> Collected(storage, extents, blockSize, k + 1, need, data + part.value)
  {
    StreamNext(storage, extents, blockSize, k, need, data);
  }

  /** Later extents cannot make good what the first `k` could not supply, nor change what they did. */
  lemma {:induction false} StreamPrefix(storage: seq<byte>, extents: seq<Prange>, blockSize: nat, k: nat)
    requires k <= |extents|
    ensures Stream(storage, extents[..k], blockSize) <= Stream(storage, extents, blockSize)
    decreases |extents| - k
  {
    if k == |extents| {
      assert extents[..k] == extents;
    } else {
      assert extents[..k + 1][..k] == extents[..k];
      StreamPrefix(storage, extents, blockSize, k + 1);
    }
  }

  lemma PrefixDecides(storage: seq<byte>, extents: seq<Prange>, blockSize: nat, k: nat, need: nat)
    requires k <= |extents|
    ensures var some, all := Stream(storage, extents[..k], blockSize), Stream(storage, extents, blockSize);
            && (Collect(Window(some, 0, need)) == Err ==> Collect(Window(all, 0, need)) == Err)
            && (|some| >= need ==> Window(all, 0, need) == Window(some, 0, need))
  {
    StreamPrefix(storage, extents, blockSize, k);
    var some, all := Stream(storage, extents[..k], blockSize), Stream(storage, extents, blockSize);
    var w := Window(all, 0, need);
    assert w[..|Window(some, 0, need)|] == Window(some, 0, need);
    if Collect(Window(some, 0, need)) == Err {
      CollectPrefixFails(w, |Window(some, 0, need)|);
    }
  }

  lemma NothingNeeded(storage: seq<byte>, e: Prange, blockSize: nat, need: nat, data: seq<byte>)
    requires |data| <= need && Span(e, blockSize) == 0
    ensures Collect(Needed(storage, e, blockSize, need, |data|)) == Ok([]) && data + [] == data
  {
    assert Collect(Needed(storage, e, blockSize, need, |data|)).value == [];
  }

  lemma DriverFails(storage: seq<byte>, j: Jumpstart, blockSize: nat, k: nat, data: seq<byte>)
    requires k < |j.extents| && Collected(storage, j.extents, blockSize, k, j.fileLen, data)
    requires Collect(Needed(storage, j.extents[k], blockSize, j.fileLen, |data|)) == Err
    ensures Driver(storage, j, blockSize) == Err
  {
    StreamNext(storage, j.extents, blockSize, k, j.fileLen, data);
    PrefixDecides(storage, j.extents, blockSize, k + 1, j.fileLen);
  }

  lemma DriverComplete(storage: seq<byte>, j: Jumpstart, blockSize: nat, k: nat, data: seq<byte>)
    requires j.IsValid() && Collected(storage, j.extents, blockSize, k, j.fileLen, data)
    requires |data| == j.fileLen || k == |j.extents|
    ensures Driver(storage, j, blockSize) == if |data| == j.fileLen then Ok(data) else Err
  {
    PrefixDecides(storage, j.extents, blockSize, k, j.fileLen);
    StreamPrefix(storage, j.extents, blockSize, k);
    assert k == |j.extents| ==> j.extents[..k] == j.extents;
  }

  /** What one extent contributes: nothing if it is empty, else its first bytes, as many as remain to be read. */
  method ReadExtent(storage: seq<byte>, extent: Prange, blockSize: nat, remaining: nat)
    returns (r: Outcome<seq<byte>>)
    requires remaining > 0
    ensures r == Collect(Needed(storage, extent, blockSize, remaining, 0))
  {
    var offset := I64(extent.start * blockSize);
    var bytesToRead := I64(extent.count * blockSize);
    if bytesToRead > remaining {
      bytesToRead := remaining;
    }
    if extent.count == 0 || bytesToRead <= 0 {
      NothingNeeded(storage, extent, blockSize, remaining, []);
      return Ok([]);
    }
    r := ReadAt(storage, offset, bytesToRead);
  }

  /** Reads the driver extent by extent. */
  method GetEFIDriverData(storage: seq<byte>, j: Jumpstart, blockSize: nat) returns (r: Outcome<seq<byte>>)
    requires 0 < blockSize < TWO_TO_THE_32 && j.fileLen < TWO_TO_THE_32
    ensures r == Driver(storage, j, blockSize)
  {
    if !j.IsValid() {
      return Err;
    }
    var expectedSize := j.fileLen;
    if expectedSize == 0 {
      assert Collect(Stream(storage, j.extents, blockSize)[..0]).value == [];
      return Ok([]);
    }
    var driverData: seq<byte> := [];
    var k := 0;
    assert Collect(Window(Stream(storage, j.extents[..0], blockSize), 0, expectedSize)).value == [];
    while k < |j.extents|
      invariant Collected(storage, j.extents, blockSize, k, expectedSize, driverData)
      invariant |driverData| < expectedSize
      decreases |j.extents| - k
    {
      var extent := j.extents[k];
      CollectedNext(storage, j.extents, blockSize, k, expectedSize, driverData);
      var buffer := ReadExtent(storage, extent, blockSize, expectedSize - |driverData|);
      if !buffer.Ok? {
        DriverFails(storage, j, blockSize, k, driverData);
        return Err;
      }
      driverData := driverData + buffer.value;
      k := k + 1;
      if |driverData| >= expectedSize {
        break;
      }
    }
    DriverComplete(storage, j, blockSize, k, driverData);
    r := if |driverData| != expectedSize then Err else Ok(driverData);
  }

  // ---------------------------------------------------------------------------------------------------------------
  // What the driver is when all extents lie inside the storage
  // ---------------------------------------------------------------------------------------------------------------

  ghost predicate InRange(storage: seq<byte>, e: Prange, blockSize: nat) {
    0 <= e.start * blockSize <= e.start * blockSize + e.count * blockSize <= |storage| < TWO_TO_THE_63
  }

  function ExtentContents(storage: seq<byte>, e: Prange, blockSize: nat): seq<byte>
    requires InRange(storage, e, blockSize)
  {
    storage[e.start * blockSize..e.start * blockSize + e.count * blockSize]
  }

  /** Only a jumpstart with the magic 'RDSJ' and version 1 yields a driver. */
  lemma DriverNeedsMagic(storage: seq<byte>, j: Jumpstart, blockSize: nat)
    requires Driver(storage, j, blockSize).Ok?
    ensures j.magic == 0x52 + 0x44 * 0x100 + 0x53 * 0x1_0000 + 0x4A * 0x100_0000 && j.version == 1
  {}

  /** The bytes of the extents, one behind the other. */
  function Contents(storage: seq<byte>, extents: seq<Prange>, blockSize: nat): seq<byte>
    requires forall e :: e in extents ==> InRange(storage, e, blockSize)
  {
    if extents == [] then []
    else
      Contents(storage, extents[..|extents| - 1], blockSize)
      + ExtentContents(storage, extents[|extents| - 1], blockSize)
  }

  lemma ExtentInRange(storage: seq<byte>, e: Prange, blockSize: nat)
    requires InRange(storage, e, blockSize)
    ensures Collect(ExtentCells(storage, e, blockSize)) == Ok(ExtentContents(storage, e, blockSize))
  {
    var from, n := e.start * blockSize, e.count * blockSize;
    assert n >= 0;
    RunInRange(storage, from, n);
  }

  lemma RunInRange(storage: seq<byte>, from: nat, n: nat)
    requires from + n <= |storage|
    ensures Collect(StorageRun(storage, from, n)) == Ok(storage[from..from + n])
  {
    var c := StorageRun(storage, from, n);
    forall i | 0 <= i < n
      ensures c[i] == Some(storage[from + i])
    {
      assert c[i] == StorageCell(storage, from + i);
    }
    assert Collect(c).value == storage[from..from + n];
  }

  lemma {:induction false} StreamInRange(storage: seq<byte>, extents: seq<Prange>, blockSize: nat)
    requires forall e :: e in extents ==> InRange(storage, e, blockSize)
    ensures Collect(Stream(storage, extents, blockSize)) == Ok(Contents(storage, extents, blockSize))
  {
    if extents == [] {
      assert Collect([]).value == [];
    } else {
      var n := |extents| - 1;
      StreamInRange(storage, extents[..n], blockSize);
      ExtentInRange(storage, extents[n], blockSize);
      CollectAppend(Stream(storage, extents[..n], blockSize), ExtentCells(storage, extents[n], blockSize));
    }
  }

  /**
    With all extents inside the storage, a valid jumpstart yields exactly the first fileLen bytes of the extents'
    contents, and fails if and only if the extents cover fewer bytes than declared.
   */
  lemma DriverInRange(storage: seq<byte>, j: Jumpstart, blockSize: nat)
    requires j.IsValid() && forall e :: e in j.extents ==> InRange(storage, e, blockSize)
    ensures var contents := Contents(storage, j.extents, blockSize);
            Driver(storage, j, blockSize) == if |contents| < j.fileLen then Err else Ok(contents[..j.fileLen])
  {
    StreamInRange(storage, j.extents, blockSize);
    var all, contents := Stream(storage, j.extents, blockSize), Contents(storage, j.extents, blockSize);
    if |contents| >= j.fileLen {
      assert forall i :: 0 <= i < |all| ==> all[i] == Some(contents[i]);
      assert Collect(all[..j.fileLen]).value == contents[..j.fileLen];
    }
  }

  // ---------------------------------------------------------------------------------------------------------------
  // Against the extents themselves, with no wrap-around
  // ---------------------------------------------------------------------------------------------------------------

  function TrueCells(storage: seq<byte>, e: Prange, blockSize: nat): Cells {
    StorageRun(storage, e.start * blockSize, e.count * blockSize)
  }

  function TrueStream(storage: seq<byte>, extents: seq<Prange>, blockSize: nat): Cells {
    if extents == [] then []
    else TrueStream(storage, extents[..|extents| - 1], blockSize)
         + TrueCells(storage, extents[|extents| - 1], blockSize)
  }

  /** What the driver should be. */
  ghost function TrueDriver(storage: seq<byte>, j: Jumpstart, blockSize: nat): Outcome<seq<byte>> {
    var all := TrueStream(storage, j.extents, blockSize);
    if !j.IsValid() || |all| < j.fileLen then Err else Collect(all[..j.fileLen])
  }

  predicate IsInt64(x: int) {
    -0x8000_0000_0000_0000 <= x < TWO_TO_THE_63
  }

  /** An extent that holds nothing, or starts and spans what 64-bit arithmetic computes, as far as `room` bytes go. */
  predicate Exact(e: Prange, blockSize: nat, room: nat) {
    var size := e.count * blockSize;
    size == 0 || (IsInt64(e.start * blockSize) && (size < TWO_TO_THE_63 || I64(size) >= room))
  }

  /** The start and, up to the room left, the size that the extractor computes are true if and only if it is exact. */
  lemma ExtentIsExactIff(e: Prange, blockSize: nat, room: nat)
    requires room > 0
    ensures Exact(e, blockSize, room) <==>
              && Min(Span(e, blockSize), room) == Min(e.count * blockSize, room)
              && (e.count * blockSize > 0 ==> Offset(e, blockSize) == e.start * blockSize)
  {}

  /** Every extent that is reached before the driver is complete is exact. */
  ghost predicate ExactWhereReached(storage: seq<byte>, extents: seq<Prange>, blockSize: nat, need: nat) {
    forall k :: 0 <= k < |extents| ==>
      var before := |TrueStream(storage, extents[..k], blockSize)|;
      before < need ==> Exact(extents[k], blockSize, need - before)
  }

  /** An exact extent supplies the true bytes, as far as the room goes. */
  lemma ExactSupplies(storage: seq<byte>, e: Prange, blockSize: nat, room: nat)
    requires Exact(e, blockSize, room)
    ensures Window(ExtentCells(storage, e, blockSize), 0, room) == Window(TrueCells(storage, e, blockSize), 0, room)
  {
    if room > 0 {
      ExtentIsExactIff(e, blockSize, room);
    }
  }

  lemma WindowOfSum(a: Cells, b: Cells, need: nat)
    ensures Window(a + b, 0, need) == Window(a, 0, need) + Window(b, 0, Max(need - |a|, 0))
  {}

  lemma WindowsGrow(a: Cells, b: Cells, a': Cells, b': Cells, need: nat)
    requires Window(a, 0, need) == Window(a', 0, need)
    requires |a'| < need ==> Window(b, 0, need - |a'|) == Window(b', 0, need - |a'|)
    ensures Window(a + b, 0, need) == Window(a' + b', 0, need)
  {
    WindowOfSum(a, b, need);
    WindowOfSum(a', b', need);
    assert |Window(a, 0, need)| == Min(|a|, need) && |Window(a', 0, need)| == Min(|a'|, need);
  }

  lemma {:induction false} StreamIsTrue(storage: seq<byte>, extents: seq<Prange>, blockSize: nat, need: nat)
    requires ExactWhereReached(storage, extents, blockSize, need)
    ensures Window(Stream(storage, extents, blockSize), 0, need) ==
              Window(TrueStream(storage, extents, blockSize), 0, need)
  {
    if extents != [] {
      var n := |extents| - 1;
      var init, e := extents[..n], extents[n];
      assert forall k :: 0 <= k < n ==> init[..k] == extents[..k];
      StreamIsTrue(storage, init, blockSize, need);
      var some, all := Stream(storage, init, blockSize), TrueStream(storage, init, blockSize);
      if |all| < need {
        ExactSupplies(storage, e, blockSize, need - |all|);
      }
      WindowsGrow(some, ExtentCells(storage, e, blockSize), all, TrueCells(storage, e, blockSize), need);
    }
  }

  /** The driver is what it should be when every extent that is reached is exact. */
  lemma DriverIsTrue(storage: seq<byte>, j: Jumpstart, blockSize: nat)
    requires ExactWhereReached(storage, j.extents, blockSize, j.fileLen)
    ensures Driver(storage, j, blockSize) == TrueDriver(storage, j, blockSize)
  {
    StreamIsTrue(storage, j.extents, blockSize, j.fileLen);
    var some, all := Stream(storage, j.extents, blockSize), TrueStream(storage, j.extents, blockSize);
    assert |Window(some, 0, j.fileLen)| == |Window(all, 0, j.fileLen)|;
  }

  /** So it is when no extent starts or spans beyond what an int64 expresses. */
  lemma DriverIsTrueInInt64(storage: seq<byte>, j: Jumpstart, blockSize: nat)
    requires forall e :: e in j.extents ==> IsInt64(e.start * blockSize) && e.count * blockSize < TWO_TO_THE_63
    ensures Driver(storage, j, blockSize) == TrueDriver(storage, j, blockSize)
  {
    assert forall k :: 0 <= k < |j.extents| ==> j.extents[k] in j.extents;
    DriverIsTrue(storage, j, blockSize);
  }

  // ---------------------------------------------------------------------------------------------------------------
  // Exactly when, over all storages of one length
  // ---------------------------------------------------------------------------------------------------------------

  type Addresses = seq<int>

  function AddressRun(address: int, n: nat): Addresses {
    seq(n, i requires 0 <= i < n => address + i)
  }

  /** The addresses of the extents, one behind the other, as the extractor computes them. */
  function Visited(extents: seq<Prange>, blockSize: nat): Addresses {
    if extents == [] then []
    else
      var e := extents[|extents| - 1];
      Visited(extents[..|extents| - 1], blockSize) + AddressRun(Offset(e, blockSize), Span(e, blockSize))
  }

  function TrueVisited(extents: seq<Prange>, blockSize: nat): Addresses {
    if extents == [] then []
    else
      var e := extents[|extents| - 1];
      TrueVisited(extents[..|extents| - 1], blockSize) + AddressRun(e.start * blockSize, e.count * blockSize)
  }

  function CellsAt(storage: seq<byte>, a: Addresses): Cells {
    seq(|a|, i requires 0 <= i < |a| => StorageCell(storage, a[i]))
  }

  lemma CellsOfSum(storage: seq<byte>, a: Addresses, b: Addresses)
    ensures CellsAt(storage, a + b) == CellsAt(storage, a) + CellsAt(storage, b)
  {}

  lemma CellsOfRun(storage: seq<byte>, address: int, n: nat)
    ensures CellsAt(storage, AddressRun(address, n)) == StorageRun(storage, address, n)
  {}

  lemma {:induction false} StreamIsVisited(storage: seq<byte>, extents: seq<Prange>, blockSize: nat)
    ensures Stream(storage, extents, blockSize) == CellsAt(storage, Visited(extents, blockSize))
  {
    if extents != [] {
      var init, e := extents[..|extents| - 1], extents[|extents| - 1];
      var run := AddressRun(Offset(e, blockSize), Span(e, blockSize));
      StreamIsVisited(storage, init, blockSize);
      CellsOfSum(storage, Visited(init, blockSize), run);
      CellsOfRun(storage, Offset(e, blockSize), Span(e, blockSize));
    }
  }

  lemma {:induction false} TrueStreamIsVisited(storage: seq<byte>, extents: seq<Prange>, blockSize: nat)
    ensures TrueStream(storage, extents, blockSize) == CellsAt(storage, TrueVisited(extents, blockSize))
  {
    if extents != [] {
      var init, e := extents[..|extents| - 1], extents[|extents| - 1];
      var run := AddressRun(e.start * blockSize, e.count * blockSize);
      TrueStreamIsVisited(storage, init, blockSize);
      CellsOfSum(storage, TrueVisited(init, blockSize), run);
      CellsOfRun(storage, e.start * blockSize, e.count * blockSize);
    }
  }

  ghost predicate InStorage(a: Addresses, n: nat) {
    forall i :: 0 <= i < |a| ==> 0 <= a[i] < n
  }

  lemma CollectAt(storage: seq<byte>, a: Addresses)
    ensures Collect(CellsAt(storage, a)).Ok? <==> InStorage(a, |storage|)
    ensures InStorage(a, |storage|) ==>
              Collect(CellsAt(storage, a)) == Ok(seq(|a|, i requires 0 <= i < |a| => storage[a[i]]))
  {
    var c := CellsAt(storage, a);
    assert forall i :: 0 <= i < |a| ==> (c[i].Some? <==> 0 <= a[i] < |storage|);
    if InStorage(a, |storage|) {
      assert Collect(c).value == seq(|a|, i requires 0 <= i < |a| => storage[a[i]]);
    }
  }

  /** Two sequences of addresses are read alike from a storage. */
  ghost predicate ReadAlike(s: seq<byte>, a: Addresses, b: Addresses) {
    Collect(CellsAt(s, a)) == Collect(CellsAt(s, b))
  }

  /** Both are the same addresses, or neither can be read. */
  ghost predicate Alike(a: Addresses, b: Addresses, n: nat) {
    if InStorage(a, n) && InStorage(b, n) then a == b else !InStorage(a, n) && !InStorage(b, n)
  }

  /** A storage that tells different addresses apart: zero everywhere, but for a one. */
  lemma TellsApart(a: Addresses, b: Addresses, n: nat) returns (s: seq<byte>)
    requires !Alike(a, b, n)
    ensures |s| == n && !ReadAlike(s, a, b)
  {
    s := seq(n, _ => 0);
    if InStorage(a, n) && InStorage(b, n) && |a| == |b| {
      var i :| 0 <= i < |a| && a[i] != b[i];
      s := s[a[i] := 1];
      CollectAt(s, a);
      CollectAt(s, b);
      assert Collect(CellsAt(s, a)).value[i] == 1 && Collect(CellsAt(s, b)).value[i] == 0;
    } else {
      CollectAt(s, a);
      CollectAt(s, b);
    }
  }

  lemma ReadAlikeIff(a: Addresses, b: Addresses, n: nat)
    ensures (forall s: seq<byte> :: |s| == n ==> ReadAlike(s, a, b)) <==> Alike(a, b, n)
  {
    if Alike(a, b, n) {
      forall s: seq<byte> | |s| == n
        ensures ReadAlike(s, a, b)
      {
        CollectAt(s, a);
        CollectAt(s, b);
      }
    } else {
      var s := TellsApart(a, b, n);
    }
  }

  /** What the extractor reads of an extent, and what it should read, up to the room left. */
  function ExtentVisited(e: Prange, blockSize: nat, room: nat): Addresses {
    AddressRun(Offset(e, blockSize), Min(Span(e, blockSize), room))
  }

  function TrueExtentVisited(e: Prange, blockSize: nat, room: nat): Addresses {
    AddressRun(e.start * blockSize, Min(e.count * blockSize, room))
  }

  /**
    From every storage of a length an extent is read as it should be if and only if it is exact, or reading it both is
    and should be an error.
   */
  lemma ExtentIsTrueIff(e: Prange, blockSize: nat, room: nat, n: nat)
    requires room > 0
    ensures var some, all := ExtentVisited(e, blockSize, room), TrueExtentVisited(e, blockSize, room);
            (forall s: seq<byte> :: |s| == n ==> ReadAlike(s, some, all)) <==>
              Exact(e, blockSize, room) || (!InStorage(some, n) && !InStorage(all, n))
  {
    var some, all := ExtentVisited(e, blockSize, room), TrueExtentVisited(e, blockSize, room);
    ReadAlikeIff(some, all, n);
    ExtentIsExactIff(e, blockSize, room);
    if some == all && |all| > 0 {
      assert some[0] == all[0];
    }
  }

  /** The addresses of a driver: the first `need`, if there are as many and the storage holds them. */
  ghost predicate Supplied(a: Addresses, need: nat, n: nat) {
    |a| >= need && InStorage(a[..need], n)
  }

  lemma DriverIsVisited(storage: seq<byte>, j: Jumpstart, blockSize: nat)
    requires j.IsValid()
    ensures var a := Visited(j.extents, blockSize);
            Driver(storage, j, blockSize) ==
              if |a| < j.fileLen then Err else Collect(CellsAt(storage, a[..j.fileLen]))
    ensures var a := TrueVisited(j.extents, blockSize);
            TrueDriver(storage, j, blockSize) ==
              if |a| < j.fileLen then Err else Collect(CellsAt(storage, a[..j.fileLen]))
  {
    StreamIsVisited(storage, j.extents, blockSize);
    TrueStreamIsVisited(storage, j.extents, blockSize);
    PrefixOfCells(storage, Visited(j.extents, blockSize), j.fileLen);
    PrefixOfCells(storage, TrueVisited(j.extents, blockSize), j.fileLen);
  }

  lemma PrefixOfCells(storage: seq<byte>, a: Addresses, n: nat)
    ensures n <= |a| ==> CellsAt(storage, a)[..n] == CellsAt(storage, a[..n])
  {}

  /**
    From every storage of a length the driver is what it should be if and only if the first fileLen addresses visited
    are those that should be, or the driver both is and should be an error.
   */
  lemma DriverIsTrueIff(j: Jumpstart, blockSize: nat, n: nat)
    requires j.IsValid()
    ensures var some, all := Visited(j.extents, blockSize), TrueVisited(j.extents, blockSize);
            (forall s: seq<byte> :: |s| == n ==> Driver(s, j, blockSize) == TrueDriver(s, j, blockSize)) <==>
              if Supplied(some, j.fileLen, n) && Supplied(all, j.fileLen, n) then some[..j.fileLen] == all[..j.fileLen]
              else !Supplied(some, j.fileLen, n) && !Supplied(all, j.fileLen, n)
  {
    var some, all := Visited(j.extents, blockSize), TrueVisited(j.extents, blockSize);
    forall s: seq<byte> | |s| == n
      ensures Driver(s, j, blockSize).Ok? <==> Supplied(some, j.fileLen, n)
      ensures TrueDriver(s, j, blockSize).Ok? <==> Supplied(all, j.fileLen, n)
      ensures !Driver(s, j, blockSize).Panic? && !TrueDriver(s, j, blockSize).Panic?
      ensures |some| >= j.fileLen && |all| >= j.fileLen ==>
                (Driver(s, j, blockSize) == TrueDriver(s, j, blockSize) <==>
                   ReadAlike(s, some[..j.fileLen], all[..j.fileLen]))
    {
      DriverIsVisited(s, j, blockSize);
      if |some| >= j.fileLen {
        CollectAt(s, some[..j.fileLen]);
      }
      if |all| >= j.fileLen {
        CollectAt(s, all[..j.fileLen]);
      }
    }
    if |some| >= j.fileLen && |all| >= j.fileLen {
      ReadAlikeIff(some[..j.fileLen], all[..j.fileLen], n);
    } else {
      var s: seq<byte> := seq(n, _ => 0);
      assert |s| == n;
    }
  }

  lemma StreamOfOne(storage: seq<byte>, e: Prange, blockSize: nat)
    ensures Stream(storage, [e], blockSize) == ExtentCells(storage, e, blockSize)
  {
    assert [e][..0] == [];
  }

  lemma StreamOfTwo(storage: seq<byte>, e: Prange, f: Prange, blockSize: nat)
    ensures Stream(storage, [e, f], blockSize) ==
              ExtentCells(storage, e, blockSize) + ExtentCells(storage, f, blockSize)
    ensures TrueStream(storage, [e, f], blockSize) ==
              TrueCells(storage, e, blockSize) + TrueCells(storage, f, blockSize)
  {
    assert [e, f][..1] == [e] && [e][..0] == [];
    assert Stream(storage, [e], blockSize) == ExtentCells(storage, e, blockSize);
    assert TrueStream(storage, [e], blockSize) == TrueCells(storage, e, blockSize);
  }

  /**
    An extent of 2^51 blocks of 4096 bytes spans 2^63 bytes, which is negative as an int64: it is skipped. If another
    extent follows, the driver is silently taken from there.
   */
  lemma WrongBytes(storage: seq<byte>)
    requires |storage| == 8192
    ensures var j := Jumpstart(MAGIC, VERSION, 4096, [Prange(0, 0x8_0000_0000_0000), Prange(1, 1)]);
            && Driver(storage, j, 4096) == Ok(storage[4096..8192])
            && TrueDriver(storage, j, 4096) == Ok(storage[..4096])
  {
    var huge, next := Prange(0, 0x8_0000_0000_0000), Prange(1, 1);
    StreamOfTwo(storage, huge, next, 4096);
    assert Span(huge, 4096) == 0 && ExtentCells(storage, huge, 4096) == [];
    RunInRange(storage, 4096, 4096);
    assert ExtentCells(storage, next, 4096) == StorageRun(storage, 4096, 4096);
    var some, all := Stream(storage, [huge, next], 4096), TrueStream(storage, [huge, next], 4096);
    assert some[..4096] == StorageRun(storage, 4096, 4096);
    RunInRange(storage, 0, 4096);
    assert |TrueCells(storage, huge, 4096)| == 0x8_0000_0000_0000 * 4096 >= 4096;
    assert all[..4096] == StorageRun(storage, 0, 4096);
  }

  /** With one block more the span wraps to a single block, which is read as if it were the whole extent. */
  lemma WrappedExtentIsCut(storage: seq<byte>)
    requires |storage| == 4096
    ensures Span(Prange(0, 0x10_0000_0000_0001), 4096) == 4096
    ensures Driver(storage, Jumpstart(MAGIC, VERSION, 4096, [Prange(0, 0x10_0000_0000_0001)]), 4096) == Ok(storage)
  {
    var e := Prange(0, 0x10_0000_0000_0001);
    StreamOfOne(storage, e, 4096);
    RunInRange(storage, 0, 4096);
    assert ExtentCells(storage, e, 4096)[..4096] == StorageRun(storage, 0, 4096);
    assert storage[0..4096] == storage;
  }

  /** An extent of 2^51 blocks of 4096 bytes spans 2^63 bytes, which is negative as an int64: it is skipped. */
  lemma HugeExtentIsSkipped(storage: seq<byte>, fileLen: nat)
    requires fileLen > 0
    ensures var j := Jumpstart(MAGIC, VERSION, fileLen, [Prange(0, 0x8_0000_0000_0000)]);
            Driver(storage, j, 4096) == Err
  {
    var e := Prange(0, 0x8_0000_0000_0000);
    assert Span(e, 4096) == 0;
    StreamOfOne(storage, e, 4096);
  }
}
