/** Encryption-rolling bitmap blocks (internal/parsers/encryption_rolling/bitmap_reader.go). */
module Bitmap {
  import opened Outcomes
  import opened ByteOrder

  const HEADER := 32

  // ---------------------------------------------------------------------------------------------------------------
  // Bits of unsigned integers
  // ---------------------------------------------------------------------------------------------------------------

  /** Bit k: w & (1 << k) != 0. */
  predicate Bit(w: nat, k: nat) {
    if k == 0 then w % 2 == 1 else Bit(w / 2, k - 1)
  }

  /** w | (1 << k). */
  function WithBit(w: nat, k: nat): nat {
    if k == 0 then (if w % 2 == 1 then w else w + 1) else 2 * WithBit(w / 2, k - 1) + w % 2
  }

  /** w &^ (1 << k). */
  function WithoutBit(w: nat, k: nat): nat {
    if k == 0 then (if w % 2 == 1 then w - 1 else w) else 2 * WithoutBit(w / 2, k - 1) + w % 2
  }

  lemma {:induction false} BitOfWithBit(w: nat, k: nat, j: nat)
    ensures Bit(WithBit(w, k), j) <==> j == k || Bit(w, j)
    ensures Bit(WithoutBit(w, k), j) <==> j != k && Bit(w, j)
    decreases j
  {
    if k != 0 {
      var x, y := WithBit(w / 2, k - 1), WithoutBit(w / 2, k - 1);
      assert (2 * x + w % 2) / 2 == x && (2 * x + w % 2) % 2 == w % 2;
      assert (2 * y + w % 2) / 2 == y && (2 * y + w % 2) % 2 == w % 2;
      if j != 0 {
        BitOfWithBit(w / 2, k - 1, j - 1);
      }
    }
  }

  function Pow2(m: nat): (p: nat)
    ensures p > 0
  {
    if m == 0 then 1 else 2 * Pow2(m - 1)
  }

  /** Setting or clearing one of the low m bits keeps an m-bit value an m-bit value. */
  lemma {:induction false} WithBitFits(w: nat, k: nat, m: nat)
    requires w < Pow2(m) && k < m
    ensures WithBit(w, k) < Pow2(m) && WithoutBit(w, k) < Pow2(m)
  {
    var half := Pow2(m - 1);
    assert Pow2(m) == 2 * half;
    if k != 0 {
      WithBitFits(w / 2, k - 1, m - 1);
    }
  }

  /** Bits of a value whose low m bits are those of `low` and whose other bits are those of `high`. */
  lemma {:induction false} BitsOfSum(low: nat, m: nat, high: nat, i: nat)
    requires low < Pow2(m)
    ensures Bit(low + Pow2(m) * high, i) <==> if i < m then Bit(low, i) else Bit(high, i - m)
  {
    if m != 0 {
      var shifted := Pow2(m - 1) * high;
      assert Pow2(m) * high == 2 * shifted;
      if i != 0 {
        BitsOfSum(low / 2, m - 1, high, i - 1);
        assert (low + 2 * shifted) / 2 == low / 2 + shifted;
      }
    }
  }

  lemma {:induction false} ZeroHasNoBits(i: nat)
    ensures !Bit(0, i)
  {
    if i != 0 {
      ZeroHasNoBits(i - 1);
    }
  }

  /** Bit i of a little-endian integer is bit i mod 8 of byte i / 8; bits beyond its bytes are clear. */
  lemma {:induction false} BitOfFromLe(s: seq<byte>, i: nat)
    ensures Bit(FromLe(s), i) <==> i < 8 * |s| && Bit(s[i / 8], i % 8)
  {
    if s == [] {
      ZeroHasNoBits(i);
    } else {
      assert Pow2(8) == 256;
      BitsOfSum(s[0], 8, FromLe(s[1..]), i);
      if i >= 8 {
        BitOfFromLe(s[1..], i - 8);
        assert (i - 8) / 8 == i / 8 - 1 && (i - 8) % 8 == i % 8;
      }
    }
  }

  // ---------------------------------------------------------------------------------------------------------------
  // The block
  // ---------------------------------------------------------------------------------------------------------------

  /** Which byte of the bit field holds bit i: byte i / 8, counted from the other end of its word if big-endian. */
  function ByteOf(e: Endian, i: nat): nat {
    if e.Little? then i / 8 else 8 * (i / 64) + 7 - (i / 8) % 8
  }

  /** The reference: bit i is bit i mod 8 of its byte behind the header. */
  ghost predicate DataBit(e: Endian, data: seq<byte>, i: nat) {
    HEADER + ByteOf(e, i) < |data| && Bit(data[HEADER + ByteOf(e, i)], i % 8)
  }

  /** Where bit i lies, in both byte orders. */
  lemma DataBitIs(data: seq<byte>, i: nat)
    ensures DataBit(Little, data, i) <==> 32 + i / 8 < |data| && Bit(data[32 + i / 8], i % 8)
    ensures var at := 32 + 8 * (i / 64) + 7 - (i % 64) / 8;
            DataBit(Big, data, i) <==> at < |data| && Bit(data[at], i % 8)
  {
    assert (i / 8) % 8 == (i % 64) / 8;
  }

  /** Bit k has the weight 2^k: adding it to a value without it is setting it. */
  lemma {:induction false} BitWeight(w: nat, k: nat)
    requires !Bit(w, k)
    ensures WithBit(w, k) == w + Pow2(k)
  {
    if k != 0 {
      BitWeight(w / 2, k - 1);
    }
  }

  /** Bit i of a sequence of 64-bit words. */
  predicate WordsBit(words: seq<u64>, i: nat) {
    i / 64 < |words| && Bit(words[i / 64], i % 64)
  }

  /** Bytes 32 + 8n .. 32 + 8n + 8, the missing ones being zero. */
  function Padded(data: seq<byte>, n: nat): (s: seq<byte>)
    requires HEADER + 8 * n <= |data|
    ensures |s| == 8
  {
    var s := data[HEADER + 8 * n..Min(HEADER + 8 * n + 8, |data|)];
    s + seq(8 - |s|, _ => 0)
  }

  function Uint64(e: Endian, s: seq<byte>): (w: u64)
    requires |s| == 8
  {
    FromLeBound(s);
    FromLeBound(Reverse(s));
    Pow256Of8();
    Get(e, s)
  }

  function WordAt(e: Endian, data: seq<byte>, n: nat): (w: u64)
    requires HEADER + 8 * n <= |data|
  {
    Uint64(e, Padded(data, n))
  }

  lemma Pow256Of8()
    ensures Pow256(8) == 0x1_0000_0000_0000_0000
  {
    assert Pow256(4) == 0x1_0000_0000;
  }

  /** Bit k of a word is bit k mod 8 of one of its bytes. */
  lemma BitOfWord(e: Endian, s: seq<byte>, k: nat)
    requires |s| == 8 && k < 64
    ensures Bit(Uint64(e, s), k) <==> Bit(s[ByteOf(e, k)], k % 8)
  {
    if e.Little? {
      BitOfFromLe(s, k);
    } else {
      BitOfFromLe(Reverse(s), k);
      ReverseDigit(s, k / 8);
    }
  }

  /** The parsed words have exactly the bits of the block's bytes. */
  lemma WordsHaveDataBits(e: Endian, data: seq<byte>, words: seq<u64>, i: nat)
    requires |data| >= HEADER && |words| == (|data| - HEADER + 7) / 8
    requires forall n :: 0 <= n < |words| ==> words[n] == WordAt(e, data, n)
    ensures WordsBit(words, i) <==> DataBit(e, data, i)
  {
    var n, k := i / 64, i % 64;
    assert i / 8 == 8 * n + k / 8 && (i / 8) % 8 == k / 8 && i % 8 == k % 8;
    assert ByteOf(e, i) == 8 * n + ByteOf(e, k);
    if n < |words| {
      BitOfWord(e, Padded(data, n), k);
      ZeroHasNoBits(k % 8);
    }
  }

  class GeneralBitmapBlock {
    const field: array<u64>  // BmbField

    /** Parses a block of at least 40 bytes; a partial last word is padded with zeros. */
    constructor (e: Endian, data: seq<byte>)
      requires |data| >= 40
      ensures fresh(field) && field.Length == (|data| - HEADER + 7) / 8
      ensures forall i :: WordsBit(field[..], i) <==> DataBit(e, data, i)
    {
      var remainingBytes := |data| - HEADER;
      var fieldCount := remainingBytes / 8;
      if remainingBytes % 8 != 0 {
        fieldCount := fieldCount + 1;
      }
      var words := new u64[fieldCount];
      var offset := HEADER;
      var i := 0;
      while i < fieldCount && offset + 8 <= |data|
        invariant i <= fieldCount && offset == HEADER + 8 * i
        invariant forall n :: 0 <= n < i ==> words[n] == WordAt(e, data, n)
      {
        assert data[offset..offset + 8] == Padded(data, i);
        words[i] := Uint64(e, data[offset..offset + 8]);
        offset := offset + 8;
        i := i + 1;
      }
      if remainingBytes % 8 != 0 && fieldCount > 0 {
        var lastBytes := remainingBytes % 8;
        var lastData := data[|data| - lastBytes..] + seq(8 - lastBytes, _ => 0);
        assert lastData == Padded(data, fieldCount - 1);
        words[fieldCount - 1] := Uint64(e, lastData);
      }
      field := words;
      new;
      assert forall n :: 0 <= n < |field[..]| ==> field[..][n] == WordAt(e, data, n);
      forall j: nat
        ensures WordsBit(field[..], j) <==> DataBit(e, data, j)
      {
        WordsHaveDataBits(e, data, field[..], j);
      }
    }

    /** The set of bits, as seen through IsBitSet. */
    ghost predicate Has(i: nat)
      reads field
    {
      WordsBit(field[..], i)
    }

    method IsBitSet(bitIndex: u64) returns (b: bool)
      ensures b <==> Has(bitIndex)
    {
      var fieldIndex := bitIndex / 64;
      if fieldIndex >= field.Length {
        return false;
      }
      b := Bit(field[fieldIndex], bitIndex % 64);
    }

    /** Set insertion; an index beyond the block changes nothing. */
    method SetBit(bitIndex: u64)
      modifies field
      ensures forall i :: Has(i) <==> old(Has(i)) || (i == bitIndex && bitIndex / 64 < field.Length)
    {
      var fieldIndex := bitIndex / 64;
      if fieldIndex >= field.Length {
        return;
      }
      var bitOffset := bitIndex % 64;
      ghost var before := field[..];
      assert Pow2(64) == 0x1_0000_0000_0000_0000 by { Pow2Is64(); }
      WithBitFits(field[fieldIndex], bitOffset, 64);
      field[fieldIndex] := WithBit(field[fieldIndex], bitOffset);
      forall i: nat
        ensures Has(i) <==> WordsBit(before, i) || i == bitIndex
      {
        BitOfWithBit(before[fieldIndex], bitOffset, i % 64);
        SameIndex(i, bitIndex);
      }
    }

    /** Set removal; an index beyond the block changes nothing. */
    method ClearBit(bitIndex: u64)
      modifies field
      ensures forall i :: Has(i) <==> old(Has(i)) && i != bitIndex
    {
      var fieldIndex := bitIndex / 64;
      if fieldIndex >= field.Length {
        return;
      }
      var bitOffset := bitIndex % 64;
      ghost var before := field[..];
      assert Pow2(64) == 0x1_0000_0000_0000_0000 by { Pow2Is64(); }
      WithBitFits(field[fieldIndex], bitOffset, 64);
      field[fieldIndex] := WithoutBit(field[fieldIndex], bitOffset);
      forall i: nat
        ensures Has(i) <==> WordsBit(before, i) && i != bitIndex
      {
        BitOfWithBit(before[fieldIndex], bitOffset, i % 64);
        SameIndex(i, bitIndex);
      }
    }
  }

  /** NewGeneralBitmapBlockReader: blocks below 40 bytes are rejected. */
  method ParseBlock(e: Endian, data: seq<byte>) returns (r: Outcome<GeneralBitmapBlock>)
    ensures if |data| < 40 then r == Err else r.Ok? && forall i :: r.value.Has(i) <==> DataBit(e, data, i)
  {
    if |data| < 40 {
      return Err;
    }
    var block := new GeneralBitmapBlock(e, data);
    r := Ok(block);
  }

  lemma SameIndex(i: nat, j: nat)
    ensures i == j <==> i / 64 == j / 64 && i % 64 == j % 64
  {}

  lemma {:induction false} Pow2Sum(a: nat, b: nat)
    ensures Pow2(a + b) == Pow2(a) * Pow2(b)
  {
    if a != 0 {
      Pow2Sum(a - 1, b);
      assert 2 * (Pow2(a - 1) * Pow2(b)) == Pow2(a) * Pow2(b);
    }
  }

  lemma Pow2Is64()
    ensures Pow2(64) == 0x1_0000_0000_0000_0000
  {
    assert Pow2(8) == 0x100;
    Pow2Sum(8, 8);
    assert Pow2(16) == 0x1_0000;
    Pow2Sum(16, 16);
    assert Pow2(32) == 0x1_0000_0000;
    Pow2Sum(32, 32);
  }
}
