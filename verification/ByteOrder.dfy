/** Fixed-width unsigned integers as byte sequences: Go's binary.LittleEndian and binary.BigEndian. */
module ByteOrder {
  import opened Outcomes

  datatype Endian = Little | Big

  /** 256^n. */
  function Pow256(n: nat): (p: nat)
    ensures p > 0
  {
    if n == 0 then 1 else 256 * Pow256(n - 1)
  }

  function Reverse(s: seq<byte>): (r: seq<byte>)
    ensures |r| == |s|
  {
    if s == [] then [] else Reverse(s[1..]) + [s[0]]
  }

  /** The low `width` bytes of `v`, least significant first. */
  function Le(width: nat, v: nat): (s: seq<byte>)
    ensures |s| == width
  {
    if width == 0 then [] else [v % 256] + Le(width - 1, v / 256)
  }

  function FromLe(s: seq<byte>): (v: nat)
  {
    if s == [] then 0 else s[0] as int + 256 * FromLe(s[1..])
  }

  /** PutUint16/32/64. */
  function Put(e: Endian, width: nat, v: nat): (s: seq<byte>)
    ensures |s| == width
  {
    if e.Little? then Le(width, v) else Reverse(Le(width, v))
  }

  /** Uint16/32/64. */
  function Get(e: Endian, s: seq<byte>): nat {
    if e.Little? then FromLe(s) else FromLe(Reverse(s))
  }

  lemma {:induction false} FromLeBound(s: seq<byte>)
    ensures FromLe(s) < Pow256(|s|)
  {
    if s != [] {
      FromLeBound(s[1..]);
    }
  }

  /** The encoding of `low + 256^a * high` is the encoding of `low` followed by that of `high`. */
  lemma {:induction false} LeSplit(a: nat, b: nat, low: nat, high: nat)
    requires low < Pow256(a)
    ensures Le(a + b, low + Pow256(a) * high) == Le(a, low) + Le(b, high)
  {
    if a != 0 {
      var shifted := Pow256(a - 1) * high;
      assert Pow256(a) * high == 256 * shifted;
      assert (low + 256 * shifted) % 256 == low % 256 && (low + 256 * shifted) / 256 == low / 256 + shifted;
      LeSplit(a - 1, b, low / 256, high);
    }
  }

  lemma {:induction false} FromLeOfLe(width: nat, v: nat)
    requires v < Pow256(width)
    ensures FromLe(Le(width, v)) == v
  {
    if width != 0 {
      assert v / 256 < Pow256(width - 1);
      FromLeOfLe(width - 1, v / 256);
    }
  }

  lemma {:induction false} LeOfFromLe(s: seq<byte>)
    ensures Le(|s|, FromLe(s)) == s
  {
    if s != [] {
      LeOfFromLe(s[1..]);
      assert FromLe(s) % 256 == s[0] as int && FromLe(s) / 256 == FromLe(s[1..]);
      assert s == [s[0]] + s[1..];
    }
  }

  lemma {:induction false} ReverseAppend(s: seq<byte>, b: byte)
    ensures Reverse(s + [b]) == [b] + Reverse(s)
  {
    if s != [] {
      ReverseAppend(s[1..], b);
      assert (s + [b])[1..] == s[1..] + [b];
    }
  }

  lemma {:induction false} ReverseTwice(s: seq<byte>)
    ensures Reverse(Reverse(s)) == s
  {
    if s != [] {
      ReverseTwice(s[1..]);
      ReverseAppend(Reverse(s[1..]), s[0]);
      assert s == [s[0]] + s[1..];
    }
  }

  /** Reading back what was written. */
  lemma GetOfPut(e: Endian, width: nat, v: nat)
    requires v < Pow256(width)
    ensures Get(e, Put(e, width, v)) == v
  {
    FromLeOfLe(width, v);
    ReverseTwice(Le(width, v));
  }

  /** Writing back what was read. */
  lemma PutOfGet(e: Endian, s: seq<byte>)
    ensures Put(e, |s|, Get(e, s)) == s
  {
    LeOfFromLe(s);
    LeOfFromLe(Reverse(s));
    ReverseTwice(s);
  }

  /** The value without its `i` lowest digits in base 256. */
  function Shifted(v: nat, i: nat): nat {
    if i == 0 then v else Shifted(v / 256, i - 1)
  }

  /** Byte i of an encoding is digit i of the value in base 256, counted from the end if big-endian. */
  lemma {:induction false} LeDigit(width: nat, v: nat, i: nat)
    requires i < width
    ensures Le(width, v)[i] == Shifted(v, i) % 256
  {
    if i != 0 {
      LeDigit(width - 1, v / 256, i - 1);
    }
  }

  lemma {:induction false} ReverseDigit(s: seq<byte>, i: nat)
    requires i < |s|
    ensures Reverse(s)[i] == s[|s| - 1 - i]
  {
    if i < |s| - 1 {
      ReverseDigit(s[1..], i);
    }
  }

  lemma PutDigit(e: Endian, width: nat, v: nat, i: nat)
    requires i < width
    ensures Put(e, width, v)[if e == Little then i else width - 1 - i] == Shifted(v, i) % 256
  {
    LeDigit(width, v, i);
    if e == Big {
      ReverseDigit(Le(width, v), width - 1 - i);
    }
  }

  lemma PutExamples()
    ensures Put(Little, 4, 0x0102_0304) == [4, 3, 2, 1] && Put(Big, 4, 0x0102_0304) == [1, 2, 3, 4]
  {
    var s := Le(4, 0x0102_0304);
    assert Le(3, 0x01_0203) == [3] + Le(2, 0x0102) && Le(2, 0x0102) == [2] + Le(1, 1);
    assert s == [4, 3, 2, 1];
    assert forall i :: 0 <= i < 4 ==> Reverse(s)[i] == s[3 - i] by {
      forall i | 0 <= i < 4
        ensures Reverse(s)[i] == s[3 - i]
      {
        ReverseDigit(s, i);
      }
    }
  }
}
