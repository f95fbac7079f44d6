/** Byte sequences of which a device may be unable to supply some bytes. */
module Cells {
  import opened Outcomes

  /** Bytes, or None where the device cannot supply one. */
  type Cells = seq<Option<byte>>

  /** The cells `offset .. offset + length`, clipped to the end. */
  function Window(c: Cells, offset: nat, length: nat): Cells {
    c[Min(offset, |c|)..Min(offset + length, |c|)]
  }

  ghost predicate AllKnown(c: Cells) {
    forall i :: 0 <= i < |c| ==> c[i].Some?
  }

  /** The bytes, if the device can supply all of them. */
  ghost function Collect(c: Cells): Outcome<seq<byte>> {
    if AllKnown(c) then Ok(seq(|c|, i requires 0 <= i < |c| => c[i].value)) else Err
  }

  lemma CollectAppend(a: Cells, b: Cells)
    ensures Collect(a + b) == if Collect(a).Ok? && Collect(b).Ok? then Ok(Collect(a).value + Collect(b).value) else Err
  {
    if AllKnown(a) && AllKnown(b) {
      assert Collect(a + b).value == Collect(a).value + Collect(b).value;
    } else if !AllKnown(a) {
      var i :| 0 <= i < |a| && a[i].None?;
      assert (a + b)[i].None?;
    } else {
      var i :| 0 <= i < |b| && b[i].None?;
      assert (a + b)[|a| + i].None?;
    }
  }

  /** A failure inside a prefix is a failure of the whole. */
  lemma CollectPrefixFails(whole: Cells, n: nat)
    requires n <= |whole| && Collect(whole[..n]) == Err
    ensures Collect(whole) == Err
  {
    CollectAppend(whole[..n], whole[n..]);
    assert whole == whole[..n] + whole[n..];
  }

  // ---------------------------------------------------------------------------------------------------------------
  // Windows
  // ---------------------------------------------------------------------------------------------------------------

  /** The part of the next extent that a window covers. */
  lemma WindowAppend(a: Cells, b: Cells, offset: nat, length: nat)
    ensures var start := Max(offset - |a|, 0);
            var end := Min(offset + length - |a|, |b|);
            Window(a + b, offset, length) == Window(a, offset, length) + (if start < end then b[start..end] else [])
  {}

  /** Adjacent ranges concatenate. */
  lemma AdjacentWindows(c: Cells, offset: nat, m: nat, n: nat)
    ensures Window(c, offset, m) + Window(c, offset + m, n) == Window(c, offset, m + n)
  {}

  lemma AdjacentReads(c: Cells, offset: nat, m: nat, n: nat)
    ensures var first, second := Collect(Window(c, offset, m)), Collect(Window(c, offset + m, n));
            Collect(Window(c, offset, m + n)) ==
              if first.Ok? && second.Ok? then Ok(first.value + second.value) else Err
  {
    AdjacentWindows(c, offset, m, n);
    CollectAppend(Window(c, offset, m), Window(c, offset + m, n));
  }

  /** When the device can supply the whole file, every range of it is the slice of the file's bytes. */
  lemma RangeOfReadableFile(c: Cells, file: seq<byte>, offset: nat, length: nat)
    requires Collect(c) == Ok(file)
    ensures Collect(Window(c, offset, length)) == Ok(file[Min(offset, |file|)..Min(offset + length, |file|)])
  {
    var w := Window(c, offset, length);
    forall i | 0 <= i < |w|
      ensures w[i] == Some(file[Min(offset, |file|) + i])
    {
      assert c[Min(offset, |file|) + i] == Some(file[Min(offset, |file|) + i]);
    }
    assert Collect(w).value == file[Min(offset, |file|)..Min(offset + length, |file|)];
  }
}
