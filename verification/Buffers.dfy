/** Byte buffers: what they hold at an offset, and consecutive writes. */
module Buffers {
  import opened Outcomes

  /** A buffer holds `bytes` at an offset. */
  ghost predicate Holds(s: seq<byte>, offset: nat, bytes: seq<byte>) {
    offset + |bytes| <= |s| && s[offset..offset + |bytes|] == bytes
  }

  lemma HoldsTwo(s: seq<byte>, offset: nat, a: seq<byte>, b: seq<byte>)
    requires Holds(s, offset, a + b)
    ensures Holds(s, offset, a) && Holds(s, offset + |a|, b)
  {
    var all := s[offset..offset + |a + b|];
    assert s[offset..offset + |a|] == all[..|a|] == a;
    assert s[offset + |a|..offset + |a| + |b|] == all[|a|..] == b;
  }

  lemma HoldsThree(s: seq<byte>, offset: nat, a: seq<byte>, b: seq<byte>, c: seq<byte>)
    requires Holds(s, offset, a + b + c)
    ensures Holds(s, offset, a) && Holds(s, offset + |a|, b) && Holds(s, offset + |a| + |b|, c)
  {
    HoldsTwo(s, offset, a + b, c);
    HoldsTwo(s, offset, a, b);
  }

  /** A buffer before and after `bytes` were written at `offset`. */
  ghost predicate Appended(before: seq<byte>, after: seq<byte>, offset: nat, bytes: seq<byte>) {
    && |after| == |before| && offset + |bytes| <= |before|
    && after == before[..offset] + bytes + before[offset + |bytes|..]
  }

  /** Two writes, one behind the other, are one write. */
  lemma AppendedTwice(s0: seq<byte>, s1: seq<byte>, s2: seq<byte>, offset: nat, a: seq<byte>, b: seq<byte>)
    requires Appended(s0, s1, offset, a) && Appended(s1, s2, offset + |a|, b)
    ensures Appended(s0, s2, offset, a + b)
  {
    assert s1[..offset + |a|] == s0[..offset] + a;
    assert s1[offset + |a| + |b|..] == s0[offset + |a| + |b|..];
  }

  lemma AppendedThrice(
    s0: seq<byte>, s1: seq<byte>, s2: seq<byte>, s3: seq<byte>, offset: nat, a: seq<byte>, b: seq<byte>, c: seq<byte>)
    requires Appended(s0, s1, offset, a) && Appended(s1, s2, offset + |a|, b) && Appended(s2, s3, offset + |a| + |b|, c)
    ensures Appended(s0, s3, offset, a + b + c)
  {
    AppendedTwice(s0, s1, s2, offset, a, b);
    AppendedTwice(s0, s2, s3, offset, a + b, c);
  }

  /** A write that covers the whole buffer, or its front. */
  lemma AppendedHolds(s0: seq<byte>, s1: seq<byte>, offset: nat, bytes: seq<byte>)
    requires Appended(s0, s1, offset, bytes)
    ensures Holds(s1, offset, bytes)
    ensures offset == 0 && |bytes| == |s1| ==> s1 == bytes
  {
    assert s1[offset..offset + |bytes|] == bytes;
  }

  // ---------------------------------------------------------------------------------------------------------------
  // Equally wide records, one behind the other
  // ---------------------------------------------------------------------------------------------------------------

  /** The first `i` records of a list, each laid out by `layout`. */
  function ListBytes<T>(layout: T -> seq<byte>, xs: seq<T>, i: nat): seq<byte>
    requires i <= |xs|
  {
    if i == 0 then [] else ListBytes(layout, xs, i - 1) + layout(xs[i - 1])
  }

  ghost predicate AllWide<T>(layout: T -> seq<byte>, xs: seq<T>, width: nat) {
    forall i :: 0 <= i < |xs| ==> |layout(xs[i])| == width
  }

  lemma {:induction false} ListLength<T>(layout: T -> seq<byte>, xs: seq<T>, i: nat, width: nat)
    requires i <= |xs| && AllWide(layout, xs, width)
    ensures |ListBytes(layout, xs, i)| == i * width
  {
    if i != 0 {
      ListLength(layout, xs, i - 1, width);
      assert i * width == (i - 1) * width + width;
    }
  }

  /** Record i is at i times the width. */
  lemma {:induction false} ListHolds<T>(
    s: seq<byte>, offset: nat, layout: T -> seq<byte>, xs: seq<T>, n: nat, i: nat, width: nat)
    requires i < n <= |xs| && AllWide(layout, xs, width) && Holds(s, offset, ListBytes(layout, xs, n))
    ensures 0 <= i * width && Holds(s, offset + i * width, layout(xs[i]))
  {
    ListLength(layout, xs, n - 1, width);
    HoldsTwo(s, offset, ListBytes(layout, xs, n - 1), layout(xs[n - 1]));
    if i < n - 1 {
      ListHolds(s, offset, layout, xs, n - 1, i, width);
    }
  }

  /** The same, for the bytes of that record and its place however they are written. */
  lemma ItemHolds<T>(
    s: seq<byte>, offset: nat, layout: T -> seq<byte>, xs: seq<T>, i: nat, width: nat, at: nat, bytes: seq<byte>)
    requires i < |xs| && AllWide(layout, xs, width) && Holds(s, offset, ListBytes(layout, xs, |xs|))
    requires at == offset + i * width && bytes == layout(xs[i])
    ensures Holds(s, at, bytes)
  {
    ListHolds(s, offset, layout, xs, |xs|, i, width);
  }

  /** Writing the next record. */
  lemma ListAppended<T>(
    s0: seq<byte>, s1: seq<byte>, s2: seq<byte>, start: nat, layout: T -> seq<byte>, xs: seq<T>, i: nat, width: nat)
    requires i < |xs| && AllWide(layout, xs, width) && i * width >= 0
    requires Appended(s0, s1, start, ListBytes(layout, xs, i))
    requires Appended(s1, s2, start + i * width, layout(xs[i]))
    ensures Appended(s0, s2, start, ListBytes(layout, xs, i + 1))
  {
    ListLength(layout, xs, i, width);
    AppendedTwice(s0, s1, s2, start, ListBytes(layout, xs, i), layout(xs[i]));
  }

  /** The same, for the bytes of that record and its place however they are written. */
  lemma ItemAppended<T>(
    s0: seq<byte>, s1: seq<byte>, s2: seq<byte>, start: nat, layout: T -> seq<byte>, xs: seq<T>, i: nat, width: nat,
    at: nat, bytes: seq<byte>)
    requires i < |xs| && AllWide(layout, xs, width) && Appended(s0, s1, start, ListBytes(layout, xs, i))
    requires Appended(s1, s2, at, bytes) && at == start + i * width && bytes == layout(xs[i])
    ensures Appended(s0, s2, start, ListBytes(layout, xs, i + 1))
  {
    ListAppended(s0, s1, s2, start, layout, xs, i, width);
  }
}
