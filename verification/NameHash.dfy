/** Directory-name hashing over UTF-8 and UTF-16 (internal/services/name_hashing_service.go). */
module NameHash {
  import opened Outcomes

  /** A Go rune: 32 bits. Runes with the top bit set are negative. */
  type rune = bv32

  const REPLACEMENT: rune := 0xFFFD

  predicate IsScalar(v: rune) {
    v < 0x11_0000 && !(0xD800 <= v < 0xE000)
  }

  /** A Unicode scalar value. */
  type scalar = v: rune | IsScalar(v)

  // ---------------------------------------------------------------------------------------------------------------
  // The encodings
  // ---------------------------------------------------------------------------------------------------------------

  /** A continuation byte carrying the low six bits of `x`. */
  function Trail(x: bv32): bv8 {
    0x80 | (x & 0x3F) as bv8
  }

  function Lead2(v: bv32): bv8 {
    0xC0 | ((v >> 6) & 0x1F) as bv8
  }

  function Lead3(v: bv32): bv8 {
    0xE0 | ((v >> 12) & 0x0F) as bv8
  }

  function Lead4(v: bv32): bv8 {
    0xF0 | ((v >> 18) & 0x07) as bv8
  }

  /** Section 3 of RFC 3629. */
  function Utf8(v: scalar): (s: seq<bv8>)
    ensures 1 <= |s| <= 4
  {
    if v < 0x80 then [v as bv8]
    else if v < 0x800 then [Lead2(v), Trail(v)]
    else if v < 0x1_0000 then [Lead3(v), Trail(v >> 6), Trail(v)]
    else [Lead4(v), Trail(v >> 12), Trail(v >> 6), Trail(v)]
  }

  function High(v: bv32): bv16 {
    0xD800 | (((v - 0x1_0000) >> 10) & 0x3FF) as bv16
  }

  function Low(v: bv32): bv16 {
    0xDC00 | ((v - 0x1_0000) & 0x3FF) as bv16
  }

  /** Section 2.1 of RFC 2781. */
  function Utf16(v: scalar): (s: seq<bv16>)
    ensures 1 <= |s| <= 2
  {
    if v < 0x1_0000 then [v as bv16] else [High(v), Low(v)]
  }

  function EncodeUtf8(vs: seq<scalar>): seq<bv8> {
    if vs == [] then [] else Utf8(vs[0]) + EncodeUtf8(vs[1..])
  }

  function EncodeUtf16(vs: seq<scalar>): seq<bv16> {
    if vs == [] then [] else Utf16(vs[0]) + EncodeUtf16(vs[1..])
  }

  // ---------------------------------------------------------------------------------------------------------------
  // Decoding and encoding as the service does it
  // ---------------------------------------------------------------------------------------------------------------

  predicate IsContinuation(b: bv8) {
    b & 0xC0 == 0x80
  }

  function Join2(c0: bv8, c1: bv8): rune {
    ((c0 as rune & 0x1F) << 6) | (c1 & 0x3F) as rune
  }

  function Join3(c0: bv8, c1: bv8, c2: bv8): rune {
    ((c0 as rune & 0x0F) << 12) | ((c1 as rune & 0x3F) << 6) | (c2 & 0x3F) as rune
  }

  function Join4(c0: bv8, c1: bv8, c2: bv8, c3: bv8): rune {
    ((c0 as rune & 0x07) << 18) | ((c1 as rune & 0x3F) << 12) | ((c2 as rune & 0x3F) << 6) | (c3 & 0x3F) as rune
  }

  /** One rune and the number of bytes it took; it always makes progress. */
  function DecodeUtf8Rune(b: seq<bv8>): (r: (rune, nat))
    ensures b != [] ==> 1 <= r.1 <= |b|
  {
    if |b| == 0 then (REPLACEMENT, 0)
    else if b[0] < 0x80 then (b[0] as rune, 1)
    else if b[0] & 0xE0 == 0xC0 && |b| >= 2 && IsContinuation(b[1]) then (Join2(b[0], b[1]), 2)
    else if b[0] & 0xF0 == 0xE0 && |b| >= 3 && IsContinuation(b[1]) && IsContinuation(b[2]) then
      (Join3(b[0], b[1], b[2]), 3)
    else if b[0] & 0xF8 == 0xF0 && |b| >= 4 && IsContinuation(b[1]) && IsContinuation(b[2]) && IsContinuation(b[3]) then
      (Join4(b[0], b[1], b[2], b[3]), 4)
    else (REPLACEMENT, 1)
  }

  /** Decoding fails on a replacement character that took one byte, which is how a bad byte shows. */
  function DecodeUtf8(b: seq<bv8>): (r: Outcome<seq<rune>>)
    ensures !r.Panic?
  {
    if b == [] then Ok([])
    else
      var (r, size) := DecodeUtf8Rune(b);
      if r == REPLACEMENT && size == 1 then Err
      else
        var rest := DecodeUtf8(b[size..]);
        if rest.Ok? then Ok([r] + rest.value) else Err
  }

  function JoinPair(high: bv16, low: bv16): rune {
    0x1_0000 + (((high - 0xD800) as rune << 10) | (low - 0xDC00) as rune)
  }

  /** A surrogate pair, or one code unit taken as it is. */
  function DecodeUtf16Rune(s: seq<bv16>): (r: (rune, nat))
    requires s != []
    ensures 1 <= r.1 <= |s|
  {
    if 0xD800 <= s[0] <= 0xDBFF && |s| >= 2 && 0xDC00 <= s[1] <= 0xDFFF then
      (JoinPair(s[0], s[1]), 2)
    else (s[0] as rune, 1)
  }

  function DecodeUtf16(s: seq<bv16>): seq<rune> {
    if s == [] then []
    else
      var (r, size) := DecodeUtf16Rune(s);
      [r] + DecodeUtf16(s[size..])
  }

  /** Four bytes, zero beyond the encoding. A negative rune is below 0x80 and keeps its low byte. */
  function EncodeUtf8Rune(r: rune): (s: seq<bv8>)
    ensures |s| == 4
  {
    if r < 0x80 || r >= 0x8000_0000 then [(r & 0xFF) as bv8, 0, 0, 0]
    else if r < 0x800 then [((0xC0 | (r >> 6)) & 0xFF) as bv8, ((0x80 | (r & 0x3F)) & 0xFF) as bv8, 0, 0]
    else if r < 0x1_0000 then
      [((0xE0 | (r >> 12)) & 0xFF) as bv8, ((0x80 | ((r >> 6) & 0x3F)) & 0xFF) as bv8,
       ((0x80 | (r & 0x3F)) & 0xFF) as bv8, 0]
    else if r < 0x11_0000 then
      [((0xF0 | (r >> 18)) & 0xFF) as bv8, ((0x80 | ((r >> 12) & 0x3F)) & 0xFF) as bv8,
       ((0x80 | ((r >> 6) & 0x3F)) & 0xFF) as bv8, ((0x80 | (r & 0x3F)) & 0xFF) as bv8]
    else [0, 0, 0, 0]
  }

  // ---------------------------------------------------------------------------------------------------------------
  // Decoding inverts encoding
  // ---------------------------------------------------------------------------------------------------------------

  lemma Bits1(v: bv32)
    requires v < 0x80
    ensures v as bv8 < 0x80 && (v as bv8) as rune == v
  {}

  lemma BitsUnit(v: bv32)
    requires v < 0x1_0000 && !(0xD800 <= v < 0xE000)
    ensures (v as bv16) as rune == v && !(0xD800 <= v as bv16 <= 0xDBFF)
  {}

  lemma Bits2(v: bv32)
    requires 0x80 <= v < 0x800
    ensures Lead2(v) >= 0x80 && Lead2(v) & 0xE0 == 0xC0 && IsContinuation(Trail(v))
    ensures Join2(Lead2(v), Trail(v)) == v
  {}

  lemma Bits3(v: bv32)
    requires 0x800 <= v < 0x1_0000
    ensures Lead3(v) >= 0x80 && Lead3(v) & 0xE0 != 0xC0 && Lead3(v) & 0xF0 == 0xE0
    ensures IsContinuation(Trail(v >> 6)) && IsContinuation(Trail(v))
    ensures Join3(Lead3(v), Trail(v >> 6), Trail(v)) == v
  {}

  lemma Bits4(v: bv32)
    requires 0x1_0000 <= v < 0x11_0000
    ensures Lead4(v) >= 0x80 && Lead4(v) & 0xE0 != 0xC0 && Lead4(v) & 0xF0 != 0xE0 && Lead4(v) & 0xF8 == 0xF0
    ensures IsContinuation(Trail(v >> 12)) && IsContinuation(Trail(v >> 6)) && IsContinuation(Trail(v))
    ensures Join4(Lead4(v), Trail(v >> 12), Trail(v >> 6), Trail(v)) == v
  {}

  lemma BitsPair(v: bv32)
    requires 0x1_0000 <= v < 0x11_0000
    ensures 0xD800 <= High(v) <= 0xDBFF && 0xDC00 <= Low(v) <= 0xDFFF
    ensures JoinPair(High(v), Low(v)) == v
  {}

  lemma Utf8RoundTrip(v: scalar, rest: seq<bv8>)
    ensures DecodeUtf8Rune(Utf8(v) + rest) == (v, |Utf8(v)|)
    ensures !(v == REPLACEMENT && |Utf8(v)| == 1)
  {
    var s := Utf8(v) + rest;
    if v < 0x80 {
      Bits1(v);
      assert s[0] == v as bv8;
    } else if v < 0x800 {
      Bits2(v);
      assert s[0] == Lead2(v) && s[1] == Trail(v);
    } else if v < 0x1_0000 {
      Bits3(v);
      assert s[0] == Lead3(v) && s[1] == Trail(v >> 6) && s[2] == Trail(v);
    } else {
      assert IsScalar(v);
      Bits4(v);
      assert s[0] == Lead4(v) && s[1] == Trail(v >> 12) && s[2] == Trail(v >> 6) && s[3] == Trail(v);
    }
  }

  lemma PairRoundTrip(v: scalar, rest: seq<bv16>)
    requires v >= 0x1_0000
    ensures DecodeUtf16Rune(Utf16(v) + rest) == (v, |Utf16(v)|)
  {
    assert IsScalar(v);
    BitsPair(v);
  }

  lemma UnitRoundTrip(v: scalar, rest: seq<bv16>)
    requires v < 0x1_0000
    ensures DecodeUtf16Rune(Utf16(v) + rest) == (v, |Utf16(v)|)
  {
    assert IsScalar(v);
    BitsUnit(v);
  }

  lemma Utf16RoundTrip(v: scalar, rest: seq<bv16>)
    ensures DecodeUtf16Rune(Utf16(v) + rest) == (v, |Utf16(v)|)
  {
    if v >= 0x1_0000 {
      PairRoundTrip(v, rest);
    } else {
      UnitRoundTrip(v, rest);
    }
  }

  lemma {:induction false} DecodeEncodeUtf8(vs: seq<scalar>)
    ensures DecodeUtf8(EncodeUtf8(vs)) == Ok(vs)
  {
    if vs != [] {
      var rest := EncodeUtf8(vs[1..]);
      Utf8RoundTrip(vs[0], rest);
      DecodeEncodeUtf8(vs[1..]);
      assert (Utf8(vs[0]) + rest)[|Utf8(vs[0])|..] == rest;
      assert EncodeUtf8(vs) == Utf8(vs[0]) + rest;
      var runes: seq<rune> := vs;
      assert DecodeUtf8(Utf8(vs[0]) + rest) == Ok([vs[0] as rune] + vs[1..]);
      assert [vs[0] as rune] + vs[1..] == runes;
    }
  }

  lemma {:induction false} DecodeEncodeUtf16(vs: seq<scalar>)
    ensures DecodeUtf16(EncodeUtf16(vs)) == vs
  {
    if vs != [] {
      var rest := EncodeUtf16(vs[1..]);
      Utf16RoundTrip(vs[0], rest);
      DecodeEncodeUtf16(vs[1..]);
      assert (Utf16(vs[0]) + rest)[|Utf16(vs[0])|..] == rest;
    }
  }

  // ---------------------------------------------------------------------------------------------------------------
  // The hash
  // ---------------------------------------------------------------------------------------------------------------

  /** A Go uint32 that only takes part in arithmetic. */
  type hash32 = x: int | 0 <= x < 0x1_0000_0000

  const SEED: hash32 := 5381

  function Low32(x: nat): hash32 {
    x % 0x1_0000_0000
  }

  /** One step: ((hash << 5) + hash) + b, every result cut to 32 bits. */
  function Mix(hash: hash32, b: bv8): hash32 {
    Low32(Low32(Low32(32 * hash) + hash) + b as int)
  }

  function HashBytes(hash: hash32, s: seq<bv8>): hash32
    decreases |s|
  {
    if s == [] then hash else HashBytes(Mix(hash, s[0]), s[1..])
  }

  /** The bytes before the first zero. */
  function HashUntilZero(hash: hash32, s: seq<bv8>): hash32
    decreases |s|
  {
    if s == [] || s[0] == 0 then hash else HashUntilZero(Mix(hash, s[0]), s[1..])
  }

  function HashUnits(hash: hash32, s: seq<bv16>): hash32
    decreases |s|
  {
    if s == [] then hash
    else HashUnits(Mix(Mix(hash, (s[0] & 0xFF) as bv8), ((s[0] >> 8) & 0xFF) as bv8), s[1..])
  }

  function HashRunes(hash: hash32, rs: seq<rune>, lower: rune -> rune): hash32
    decreases |rs|
  {
    if rs == [] then hash
    else HashRunes(HashUntilZero(hash, EncodeUtf8Rune(lower(rs[0]))), rs[1..], lower)
  }

  function Utf8Hash(name: seq<bv8>, fold: bool, lower: rune -> rune): Outcome<hash32> {
    if name == [] then Ok(0)
    else if !fold then Ok(HashBytes(SEED, name))
    else
      var runes := DecodeUtf8(name);
      if runes.Ok? then Ok(HashRunes(SEED, runes.value, lower)) else Err
  }

  function Utf16Hash(name: seq<bv16>, fold: bool, lower: rune -> rune): hash32 {
    if name == [] then 0
    else if !fold then HashUnits(SEED, name)
    else HashRunes(SEED, DecodeUtf16(name), lower)
  }

  method HashEncoded(start: hash32, encoded: seq<bv8>) returns (hash: hash32)
    ensures hash == HashUntilZero(start, encoded)
  {
    hash := start;
    var i := 0;
    while i < |encoded|
      invariant i <= |encoded| && HashUntilZero(hash, encoded[i..]) == HashUntilZero(start, encoded)
    {
      if encoded[i] == 0 {
        break;
      }
      assert encoded[i..][1..] == encoded[i + 1..];
      hash := Mix(hash, encoded[i]);
      i := i + 1;
    }
  }

  /** `folded` holds the lower-cased runes of `decoded`. */
  ghost predicate Lowered(folded: seq<rune>, decoded: seq<rune>, lower: rune -> rune) {
    |folded| == |decoded| && forall i :: 0 <= i < |folded| ==> folded[i] == lower(decoded[i])
  }

  /** `name` decodes to `decoded` followed by what `rest` decodes to. */
  ghost predicate DecodedSoFar(name: seq<bv8>, decoded: seq<rune>, rest: seq<bv8>) {
    && (DecodeUtf8(name).Ok? <==> DecodeUtf8(rest).Ok?)
    && (DecodeUtf8(rest).Ok? ==> DecodeUtf8(name).value == decoded + DecodeUtf8(rest).value)
  }

  lemma DecodedOneMore(name: seq<bv8>, decoded: seq<rune>, rest: seq<bv8>)
    requires DecodedSoFar(name, decoded, rest) && rest != []
    ensures var (r, size) := DecodeUtf8Rune(rest);
            if r == REPLACEMENT && size == 1 then DecodeUtf8(name) == Err
            else DecodedSoFar(name, decoded + [r], rest[size..])
  {
    var (r, size) := DecodeUtf8Rune(rest);
    var tail := DecodeUtf8(rest[size..]);
    if tail.Ok? {
      assert decoded + ([r] + tail.value) == decoded + [r] + tail.value;
    }
  }

  /** Decodes and folds a name; an undecodable byte is an error. */
  method FoldUtf8(name: seq<bv8>, lower: rune -> rune) returns (runes: Outcome<seq<rune>>)
    ensures !runes.Panic? && (runes.Ok? <==> DecodeUtf8(name).Ok?)
    ensures runes.Ok? ==> Lowered(runes.value, DecodeUtf8(name).value, lower)
  {
    var rest, folded: seq<rune> := name, [];
    ghost var decoded: seq<rune> := [];
    while |rest| > 0
      invariant Lowered(folded, decoded, lower) && DecodedSoFar(name, decoded, rest)
    {
      DecodedOneMore(name, decoded, rest);
      var (r, size) := DecodeUtf8Rune(rest);
      if r == REPLACEMENT && size == 1 {
        return Err;
      }
      folded := folded + [lower(r)];
      decoded := decoded + [r];
      rest := rest[size..];
    }
    assert decoded + [] == decoded;
    runes := Ok(folded);
  }

  method HashUTF8(name: seq<bv8>, useCaseFolding: bool, lower: rune -> rune) returns (r: Outcome<hash32>)
    ensures r == Utf8Hash(name, useCaseFolding, lower)
  {
    if |name| == 0 {
      return Ok(0);
    }
    var hash := SEED;
    var i := 0;
    if useCaseFolding {
      var runes := FoldUtf8(name, lower);
      if !runes.Ok? {
        return Err;
      }
      ghost var decoded := DecodeUtf8(name).value;
      while i < |runes.value|
        invariant i <= |decoded| && HashRunes(hash, decoded[i..], lower) == HashRunes(SEED, decoded, lower)
      {
        assert decoded[i..][1..] == decoded[i + 1..];
        hash := HashEncoded(hash, EncodeUtf8Rune(runes.value[i]));
        i := i + 1;
      }
    } else {
      while i < |name|
        invariant i <= |name| && HashBytes(hash, name[i..]) == HashBytes(SEED, name)
      {
        assert name[i..][1..] == name[i + 1..];
        hash := Mix(hash, name[i]);
        i := i + 1;
      }
    }
    r := Ok(hash);
  }

  lemma AppendOne(a: seq<rune>, r: rune, b: seq<rune>)
    ensures a + ([r] + b) == (a + [r]) + b
  {}

  lemma DecodeUtf16Step(s: seq<bv16>, i: nat)
    requires i < |s|
    ensures var (r, size) := DecodeUtf16Rune(s[i..]);
            i + size <= |s| && DecodeUtf16(s[i..]) == [r] + DecodeUtf16(s[i + size..])
  {
    var (r, size) := DecodeUtf16Rune(s[i..]);
    assert s[i..][size..] == s[i + size..];
  }

  method DecodeUTF16(s: seq<bv16>) returns (runes: seq<rune>)
    ensures runes == DecodeUtf16(s)
  {
    runes := [];
    var i := 0;
    while i < |s|
      invariant i <= |s| && DecodeUtf16(s) == runes + DecodeUtf16(s[i..])
    {
      DecodeUtf16Step(s, i);
      var (r, size) := DecodeUtf16Rune(s[i..]);
      AppendOne(runes, r, DecodeUtf16(s[i + size..]));
      runes := runes + [r];
      i := i + size;
    }
  }

  method HashUTF16(name: seq<bv16>, useCaseFolding: bool, lower: rune -> rune) returns (hash: hash32)
    ensures hash == Utf16Hash(name, useCaseFolding, lower)
  {
    if |name| == 0 {
      return 0;
    }
    hash := SEED;
    var i := 0;
    if useCaseFolding {
      var runes := DecodeUTF16(name);
      while i < |runes|
        invariant i <= |runes| && HashRunes(hash, runes[i..], lower) == HashRunes(SEED, runes, lower)
      {
        assert runes[i..][1..] == runes[i + 1..];
        hash := HashEncoded(hash, EncodeUtf8Rune(lower(runes[i])));
        i := i + 1;
      }
    } else {
      while i < |name|
        invariant i <= |name| && HashUnits(hash, name[i..]) == HashUnits(SEED, name)
      {
        assert name[i..][1..] == name[i + 1..];
        hash := Mix(hash, (name[i] & 0xFF) as bv8);
        hash := Mix(hash, ((name[i] >> 8) & 0xFF) as bv8);
        i := i + 1;
      }
    }
  }

  // ---------------------------------------------------------------------------------------------------------------
  // The two encodings of a name hash alike
  // ---------------------------------------------------------------------------------------------------------------

  /** For every sequence of scalar values and every lower-casing function. */
  lemma FoldedHashesAgree(vs: seq<scalar>, lower: rune -> rune)
    ensures Utf8Hash(EncodeUtf8(vs), true, lower) == Ok(Utf16Hash(EncodeUtf16(vs), true, lower))
  {
    DecodeEncodeUtf8(vs);
    DecodeEncodeUtf16(vs);
  }

  /** The service encodes a scalar value as RFC 3629 does, padded with zeros. */
  lemma EncodeRuneIsUtf8(v: scalar)
    ensures EncodeUtf8Rune(v) == Utf8(v) + seq(4 - |Utf8(v)|, _ => 0)
  {
    assert IsScalar(v);
    assert EncodeUtf8Rune(v)[0] == Utf8(v)[0];
  }

  lemma {:induction false} HashBytesAppend(hash: hash32, a: seq<bv8>, b: seq<bv8>)
    ensures HashBytes(hash, a + b) == HashBytes(HashBytes(hash, a), b)
    decreases |a|
  {
    if a == [] {
      assert a + b == b;
    } else {
      HashBytesAppend(Mix(hash, a[0]), a[1..], b);
      assert (a + b)[1..] == a[1..] + b;
    }
  }

  /** Whatever follows the first zero byte does not enter the hash. */
  lemma {:induction false} UntilZeroIsAll(hash: hash32, a: seq<bv8>, rest: seq<bv8>)
    requires (forall i :: 0 <= i < |a| ==> a[i] != 0) && (rest == [] || rest[0] == 0)
    ensures HashUntilZero(hash, a + rest) == HashBytes(hash, a)
    decreases |a|
  {
    if a == [] {
      assert a + rest == rest;
    } else {
      UntilZeroIsAll(Mix(hash, a[0]), a[1..], rest);
      assert (a + rest)[1..] == a[1..] + rest;
    }
  }

  lemma NoZeroBytes(v: scalar)
    requires v != 0
    ensures forall i :: 0 <= i < |Utf8(v)| ==> Utf8(v)[i] != 0
  {
    if v < 0x80 {
      assert v as bv8 != 0;
    }
  }

  /** Without case changes and without U+0000, the folded hash of a name is the plain hash of its UTF-8 bytes. */
  lemma {:induction false} FoldByIdentity(hash: hash32, vs: seq<scalar>)
    requires forall i :: 0 <= i < |vs| ==> vs[i] != 0
    ensures HashRunes(hash, vs, r => r) == HashBytes(hash, EncodeUtf8(vs))
    decreases |vs|
  {
    if vs != [] {
      var v := vs[0];
      EncodeRuneIsUtf8(v);
      NoZeroBytes(v);
      UntilZeroIsAll(hash, Utf8(v), seq(4 - |Utf8(v)|, _ => 0));
      FoldByIdentity(HashBytes(hash, Utf8(v)), vs[1..]);
      HashBytesAppend(hash, Utf8(v), EncodeUtf8(vs[1..]));
    }
  }

  /** Folding hashes the lower-cased runes. */
  lemma {:induction false} FoldingLowers(hash: hash32, rs: seq<rune>, lowered: seq<rune>, lower: rune -> rune)
    requires Lowered(lowered, rs, lower)
    ensures HashRunes(hash, rs, lower) == HashRunes(hash, lowered, r => r)
    decreases |rs|
  {
    if rs != [] {
      assert Lowered(lowered[1..], rs[1..], lower);
      FoldingLowers(HashUntilZero(hash, EncodeUtf8Rune(lower(rs[0]))), rs[1..], lowered[1..], lower);
    }
  }

  /** The folded hash of a name is the plain hash of its lower-cased form, if that has no U+0000. */
  lemma FoldedHashIsPlainHash(vs: seq<scalar>, lowered: seq<scalar>, lower: rune -> rune)
    requires vs != [] && Lowered(lowered, vs, lower)
    requires forall i :: 0 <= i < |lowered| ==> lowered[i] != 0
    ensures Utf8Hash(EncodeUtf8(vs), true, lower) == Utf8Hash(EncodeUtf8(lowered), false, lower)
  {
    DecodeEncodeUtf8(vs);
    FoldingLowers(SEED, vs, lowered, lower);
    FoldByIdentity(SEED, lowered);
    assert |EncodeUtf8(vs)| >= |Utf8(vs[0])| && |EncodeUtf8(lowered)| >= |Utf8(lowered[0])|;
  }

  // ---------------------------------------------------------------------------------------------------------------
  // The hash in closed form
  // ---------------------------------------------------------------------------------------------------------------

  /** 33^n. */
  function Pow33(n: nat): nat {
    if n == 0 then 1 else 33 * Pow33(n - 1)
  }

  /** The sum of s[i] * 33^(|s| - 1 - i). */
  function Weighted(s: seq<bv8>): nat {
    if s == [] then 0 else s[0] as int * Pow33(|s| - 1) + Weighted(s[1..])
  }

  /** `hash` followed by `n` bytes of weighted sum `w`, modulo 2^32. */
  function Closed(hash: nat, p: nat, w: nat): nat {
    (hash * p + w) % 0x1_0000_0000
  }

  lemma ModMultiple(x: nat, y: nat, k: int)
    requires x == y + 0x1_0000_0000 * k
    ensures x % 0x1_0000_0000 == y % 0x1_0000_0000
  {}

  lemma MixIs(hash: hash32, b: nat, mixed: nat) returns (k: int)
    requires mixed == Low32(Low32(Low32(32 * hash) + hash) + b)
    ensures 33 * hash + b == mixed + 0x1_0000_0000 * k
  {
    k := (33 * hash + b - mixed) / 0x1_0000_0000;
  }

  lemma Distribute(a: int, b: int, m: int, k: int, p: int)
    requires 33 * a + b == m + k
    ensures a * (33 * p) + b * p == m * p + k * p
  {
    assert a * (33 * p) + b * p == (33 * a + b) * p;
    assert (m + k) * p == m * p + k * p;
  }

  /** One byte more in front. */
  lemma ClosedStep(hash: hash32, b: nat, mixed: nat, p: nat, w: nat)
    requires mixed == Low32(Low32(Low32(32 * hash) + hash) + b)
    ensures Closed(hash, 33 * p, b * p + w) == Closed(mixed, p, w)
  {
    var k := MixIs(hash, b, mixed);
    Distribute(hash, b, mixed, 0x1_0000_0000 * k, p);
    ModMultiple(hash * (33 * p) + (b * p + w), mixed * p + w, k * p);
  }

  /** Bytes change a hash to hash * 33^n + the weighted sum of the bytes, modulo 2^32. */
  lemma {:induction false} HashBytesClosed(hash: hash32, s: seq<bv8>)
    ensures HashBytes(hash, s) == Closed(hash, Pow33(|s|), Weighted(s))
    decreases |s|
  {
    if s != [] {
      HashBytesClosed(Mix(hash, s[0]), s[1..]);
      ClosedStep(hash, s[0] as int, Mix(hash, s[0]), Pow33(|s| - 1), Weighted(s[1..]));
    }
  }

  /** The plain hash of a name: 5381 * 33^n + the weighted sum of its bytes, modulo 2^32; zero for the empty name. */
  lemma PlainHashClosed(name: seq<bv8>, lower: rune -> rune)
    ensures Utf8Hash(name, false, lower) ==
              Ok(if name == [] then 0 else (5381 * Pow33(|name|) + Weighted(name)) % 0x1_0000_0000)
  {
    HashBytesClosed(5381, name);
  }

  lemma HashOfA(lower: rune -> rune)
    ensures Utf8Hash([0x61], false, lower) == Ok(177670)
  {
    PlainHashClosed([0x61], lower);
    assert Pow33(1) == 33 && Weighted([0x61]) == 97;
  }

  /** Code units as bytes, low byte first. */
  function UnitBytes(units: seq<bv16>): seq<bv8> {
    if units == [] then []
    else [(units[0] & 0xFF) as bv8, ((units[0] >> 8) & 0xFF) as bv8] + UnitBytes(units[1..])
  }

  lemma {:induction false} HashUnitsIsHashBytes(hash: hash32, units: seq<bv16>)
    ensures HashUnits(hash, units) == HashBytes(hash, UnitBytes(units))
    decreases |units|
  {
    if units != [] {
      var low, high := (units[0] & 0xFF) as bv8, ((units[0] >> 8) & 0xFF) as bv8;
      HashUnitsIsHashBytes(Mix(Mix(hash, low), high), units[1..]);
      assert UnitBytes(units)[1..][1..] == UnitBytes(units[1..]);
    }
  }

  /** The plain hash of code units is the plain hash of their bytes, low byte first. */
  lemma PlainUnitsHash(name: seq<bv16>, lower: rune -> rune)
    ensures Utf8Hash(UnitBytes(name), false, lower) == Ok(Utf16Hash(name, false, lower))
  {
    HashUnitsIsHashBytes(5381, name);
  }

  // ---------------------------------------------------------------------------------------------------------------
  // What is decoded, and what decoding keeps
  // ---------------------------------------------------------------------------------------------------------------

  /** The bytes of one rune: a lead byte and the continuation bytes it announces. */
  predicate IsUnit(u: seq<bv8>) {
    || (|u| == 1 && u[0] < 0x80)
    || (|u| == 2 && u[0] & 0xE0 == 0xC0 && IsContinuation(u[1]))
    || (|u| == 3 && u[0] & 0xF0 == 0xE0 && IsContinuation(u[1]) && IsContinuation(u[2]))
    || (|u| == 4 && u[0] & 0xF8 == 0xF0 && IsContinuation(u[1]) && IsContinuation(u[2]) && IsContinuation(u[3]))
  }

  ghost predicate IsUnits(b: seq<bv8>)
    decreases |b|
  {
    b == [] || exists n :: 1 <= n <= |b| && IsUnit(b[..n]) && IsUnits(b[n..])
  }

  lemma LeadsExclude(c: bv8)
    ensures c & 0xE0 == 0xC0 ==> c >= 0x80 && c & 0xF0 != 0xE0 && c & 0xF8 != 0xF0
    ensures c & 0xF0 == 0xE0 ==> c >= 0x80 && c & 0xE0 != 0xC0 && c & 0xF8 != 0xF0
    ensures c & 0xF8 == 0xF0 ==> c >= 0x80 && c & 0xE0 != 0xC0 && c & 0xF0 != 0xE0
  {}

  lemma AsciiIsNoReplacement(c: bv8)
    ensures c < 0x80 ==> c as rune != REPLACEMENT
  {}

  /** A front that is a unit is what is taken, and no bad byte. */
  lemma UnitIsTaken(b: seq<bv8>, n: nat)
    requires 1 <= n <= |b| && IsUnit(b[..n])
    ensures var (r, size) := DecodeUtf8Rune(b); size == n && !(r == REPLACEMENT && size == 1)
  {
    LeadsExclude(b[0]);
    AsciiIsNoReplacement(b[0]);
    assert forall i :: 0 <= i < n ==> b[..n][i] == b[i];
  }

  /** What is taken is a unit, unless it is a bad byte. */
  lemma TakenIsUnit(b: seq<bv8>)
    requires b != []
    ensures var (r, size) := DecodeUtf8Rune(b); (r == REPLACEMENT && size == 1) || IsUnit(b[..size])
  {}

  /** A name decodes if and only if it splits into such units. */
  lemma {:induction false} DecodesIff(b: seq<bv8>)
    ensures DecodeUtf8(b).Ok? <==> IsUnits(b)
    decreases |b|
  {
    if b != [] {
      var (r, size) := DecodeUtf8Rune(b);
      TakenIsUnit(b);
      DecodesIff(b[size..]);
      if n :| 1 <= n <= |b| && IsUnit(b[..n]) && IsUnits(b[n..]) {
        UnitIsTaken(b, n);
      }
    }
  }

  /** Every rune below 0x110000, a surrogate too, decodes from its encoding. */
  lemma EncodedRuneDecodes(r: rune)
    requires r < 0x11_0000
    ensures DecodeUtf8Rune(EncodeUtf8Rune(r)).0 == r
  {
    var s := EncodeUtf8Rune(r);
    if r < 0x80 {
      Bits1(r);
      assert s[0] == r as bv8;
    } else if r < 0x800 {
      Bits2(r);
      assert s[0] == Lead2(r) && s[1] == Trail(r);
    } else if r < 0x1_0000 {
      Bits3(r);
      assert s[0] == Lead3(r) && s[1] == Trail(r >> 6) && s[2] == Trail(r);
    } else {
      Bits4(r);
      assert s[0] == Lead4(r) && s[1] == Trail(r >> 12) && s[2] == Trail(r >> 6) && s[3] == Trail(r);
    }
  }

  /** A rune beyond Unicode, which only a lower-casing could produce, does not enter the hash. */
  lemma RuneBeyondUnicode(hash: hash32, r: rune)
    requires 0x11_0000 <= r < 0x8000_0000
    ensures HashUntilZero(hash, EncodeUtf8Rune(r)) == hash
  {
    assert EncodeUtf8Rune(r) == [0, 0, 0, 0];
  }

  /** The code units of a rune, surrogates standing for themselves. */
  function UnitsOf(r: rune): seq<bv16> {
    if r < 0x1_0000 then [r as bv16] else [High(r), Low(r)]
  }

  function AllUnits(rs: seq<rune>): seq<bv16> {
    if rs == [] then [] else UnitsOf(rs[0]) + AllUnits(rs[1..])
  }

  lemma PairBack(high: bv16, low: bv16)
    requires 0xD800 <= high <= 0xDBFF && 0xDC00 <= low <= 0xDFFF
    ensures JoinPair(high, low) >= 0x1_0000
    ensures High(JoinPair(high, low)) == high && Low(JoinPair(high, low)) == low
  {}

  lemma UnitBack(unit: bv16)
    ensures unit as rune < 0x1_0000 && (unit as rune) as bv16 == unit
  {}

  lemma UnitsBack(s: seq<bv16>)
    requires s != []
    ensures var (r, size) := DecodeUtf16Rune(s); UnitsOf(r) == s[..size]
  {
    var (r, size) := DecodeUtf16Rune(s);
    if size == 2 {
      PairBack(s[0], s[1]);
    } else {
      UnitBack(s[0]);
    }
  }

  lemma AllUnitsOfCons(r: rune, rs: seq<rune>)
    ensures AllUnits([r] + rs) == UnitsOf(r) + AllUnits(rs)
  {
    assert ([r] + rs)[1..] == rs;
  }

  /** UTF-16 decoding loses nothing, unpaired surrogates included. */
  lemma {:induction false} Utf16Lossless(s: seq<bv16>)
    ensures AllUnits(DecodeUtf16(s)) == s
    decreases |s|
  {
    if s != [] {
      var (r, size) := DecodeUtf16Rune(s);
      UnitsBack(s);
      Utf16Lossless(s[size..]);
      assert DecodeUtf16(s) == [r] + DecodeUtf16(s[size..]);
      AllUnitsOfCons(r, DecodeUtf16(s[size..]));
      assert s[..size] + s[size..] == s;
    }
  }
}
