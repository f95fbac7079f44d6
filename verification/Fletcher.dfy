/** Fletcher-64 object checksums (internal/parsers/objects/object_checksum_verifier.go). */
module Fletcher {
  import opened Outcomes
  import opened ByteOrder

  /** Go's uint64: every arithmetic result below is checked to fit, so no addition wraps. */
  newtype uint64 = x: int | 0 <= x < 0x1_0000_0000_0000_0000

  const CHUNK := 1024

  /** The residue modulo 2^32 - 1. */
  function Residue(x: int): (r: nat)
    ensures r < 0xFFFF_FFFF
  {
    x % 0xFFFF_FFFF
  }

  type word = x: int | 0 <= x < 0x1_0000_0000

  // ---------------------------------------------------------------------------------------------------------------
  // The mathematical definition, with unbounded sums
  // ---------------------------------------------------------------------------------------------------------------

  /** The little-endian 32-bit word in bytes `i .. i + 4`. */
  function Uint32(data: seq<byte>, i: nat): word
    requires i + 4 <= |data|
  {
    data[i] as int + 0x100 * data[i + 1] as int + 0x1_0000 * data[i + 2] as int + 0x100_0000 * data[i + 3] as int
  }

  /** A word is determined by its four bytes. */
  lemma Uint32IsLe(data: seq<byte>, i: nat, v: nat)
    requires i + 4 <= |data| && data[i..i + 4] == Le(4, v) && v < 0x1_0000_0000
    ensures Uint32(data, i) == v
  {
    var s := data[i..i + 4];
    var v1, v2, v3 := v / 0x100, v / 0x100 / 0x100, v / 0x100 / 0x100 / 0x100;
    assert Le(3, v1) == [v1 % 0x100] + Le(2, v2) && Le(2, v2) == [v2 % 0x100] + Le(1, v3);
    assert s == [v % 0x100, v1 % 0x100, v2 % 0x100, v3 % 0x100];
    assert data[i] == s[0] && data[i + 1] == s[1] && data[i + 2] == s[2] && data[i + 3] == s[3];
  }

  /** The whole words of `data`; up to three trailing bytes are not summed. */
  function Words(data: seq<byte>): (ws: seq<word>)
    ensures |ws| == |data| / 4
  {
    seq(|data| / 4, k requires 0 <= k < |data| / 4 => Uint32(data, 4 * k))
  }

  /** The sum of the first `n` words. */
  function Prefix1(ws: seq<word>, n: nat): nat
    requires n <= |ws|
  {
    if n == 0 then 0 else Prefix1(ws, n - 1) + ws[n - 1]
  }

  /** The sum of the first `n` non-empty prefix sums. */
  function Prefix2(ws: seq<word>, n: nat): nat
    requires n <= |ws|
  {
    if n == 0 then 0 else Prefix2(ws, n - 1) + Prefix1(ws, n)
  }

  function Sum1(ws: seq<word>): nat {
    Prefix1(ws, |ws|)
  }

  function Sum2(ws: seq<word>): nat {
    Prefix2(ws, |ws|)
  }

  datatype Check = Check(low: nat, high: nat)

  /** The check words for running sums `s1` and `s2`. */
  function CheckOf(s1: nat, s2: nat): Check {
    var low := 0xFFFF_FFFF - Residue(s1 + s2);
    Check(low, 0xFFFF_FFFF - Residue(s1 + low))
  }

  function CheckFor(data: seq<byte>): Check {
    var ws := Words(data);
    CheckOf(Sum1(ws), Sum2(ws))
  }

  /** The checksum field: low word, then high word. */
  function CheckBytes(c: Check): seq<byte> {
    Le(8, c.low + 0x1_0000_0000 * c.high)
  }

  function Fletcher64(data: seq<byte>): seq<byte> {
    CheckBytes(CheckFor(data))
  }

  // ---------------------------------------------------------------------------------------------------------------
  // The bounded computation refines the definition
  // ---------------------------------------------------------------------------------------------------------------

  lemma ResidueSum(a: int, b: int, c: int, d: int)
    requires Residue(a) == Residue(b) && Residue(c) == Residue(d)
    ensures Residue(a + c) == Residue(b + d)
  {}

  lemma CheckOfReduced(s1: nat, s2: nat, t1: nat, t2: nat)
    requires Residue(s1) == Residue(t1) && Residue(s2) == Residue(t2)
    ensures CheckOf(s1, s2) == CheckOf(t1, t2)
  {
    ResidueSum(s1, t1, s2, t2);
    var low := 0xFFFF_FFFF - Residue(s1 + s2);
    ResidueSum(s1, t1, low, low);
  }

  /** The running sums of the loop, reduced or not, stand for the unbounded sums of the first `n` words. */
  ghost predicate StandsFor(sum1: uint64, sum2: uint64, ws: seq<word>, n: nat) {
    n <= |ws| && Residue(sum1 as int) == Residue(Prefix1(ws, n)) && Residue(sum2 as int) == Residue(Prefix2(ws, n))
  }

  lemma StandsForNext(sum1: uint64, sum2: uint64, ws: seq<word>, n: nat)
    requires StandsFor(sum1, sum2, ws, n) && n < |ws|
    requires sum1 as int + ws[n] < 0x1_0000_0000_0000_0000
    requires sum2 as int + sum1 as int + ws[n] < 0x1_0000_0000_0000_0000
    ensures StandsFor(sum1 + ws[n] as uint64, sum2 + (sum1 + ws[n] as uint64), ws, n + 1)
  {
    ResidueSum(sum1 as int, Prefix1(ws, n), ws[n], ws[n]);
    ResidueSum(sum2 as int, Prefix2(ws, n), sum1 as int + ws[n], Prefix1(ws, n + 1));
  }

  /** `k` words into a chunk that starts at word `first`: how large the unreduced sums can be, what they stand for. */
  ghost predicate InChunk(sum1: uint64, sum2: uint64, ws: seq<word>, first: nat, k: nat) {
    && sum1 as int <= 0xFFFF_FFFF * (1 + k) && sum2 as int <= 0xFFFF_FFFF * (1 + 1025 * k)
    && StandsFor(sum1, sum2, ws, first + k)
  }

  lemma InChunkNext(sum1: uint64, sum2: uint64, ws: seq<word>, first: nat, k: nat)
    requires InChunk(sum1, sum2, ws, first, k) && k < CHUNK && first + k < |ws|
    ensures sum2 as int + sum1 as int + ws[first + k] < 0x1_0000_0000_0000_0000
    ensures var w := ws[first + k] as uint64; InChunk(sum1 + w, sum2 + (sum1 + w), ws, first, k + 1)
  {
    StandsForNext(sum1, sum2, ws, first + k);
  }

  /** One chunk of at most 1024 words, summed without reduction: no 64-bit addition overflows. */
  method SumChunk(data: seq<byte>, offset: nat, chunkEnd: nat, start1: uint64, start2: uint64)
    returns (sum1: uint64, sum2: uint64)
    requires offset % 4 == 0 && offset <= chunkEnd <= |data| && chunkEnd <= offset + 4 * CHUNK
    requires chunkEnd % 4 == 0 || chunkEnd == |data|
    requires InChunk(start1, start2, Words(data), offset / 4, 0)
    ensures StandsFor(sum1, sum2, Words(data), chunkEnd / 4)
  {
    ghost var ws := Words(data);
    sum1, sum2 := start1, start2;
    var i := offset;
    ghost var first, k: nat := offset / 4, 0;
    while i < chunkEnd
      invariant i == 4 * (first + k) <= |data| && k <= CHUNK && (i <= chunkEnd || k == 0)
      invariant InChunk(sum1, sum2, ws, first, k)
    {
      if i + 4 > |data| {
        break;
      }
      var w: word := Uint32(data, i);
      assert w == ws[first + k];
      InChunkNext(sum1, sum2, ws, first, k);
      sum1 := sum1 + w as uint64;
      sum2 := sum2 + sum1;
      i := i + 4;
      k := k + 1;
    }
    assert first + k == chunkEnd / 4;
  }

  lemma ReducedOnce(sum1: uint64, sum2: uint64, ws: seq<word>, n: nat)
    requires StandsFor(sum1, sum2, ws, n)
    ensures InChunk(sum1 % 0xFFFF_FFFF, sum2 % 0xFFFF_FFFF, ws, n, 0)
  {}

  /** Sums reduced only once per 1024 words give the checksum of the unbounded definition. */
  method ComputeFletcher64(data: seq<byte>) returns (checksum: seq<byte>)
    ensures checksum == Fletcher64(data)
  {
    ghost var ws, n := Words(data), 0;
    var sum1: uint64, sum2: uint64 := 0, 0;
    var offset := 0;
    while offset < |data|
      invariant n <= |ws| && offset % 4 == 0
      invariant if offset < |data| then n == offset / 4 else n == |ws|
      invariant sum1 as int < 0xFFFF_FFFF && sum2 as int < 0xFFFF_FFFF
      invariant InChunk(sum1, sum2, ws, n, 0)
      decreases |data| - offset
    {
      var chunkEnd := offset + CHUNK * 4;
      if chunkEnd > |data| {
        chunkEnd := |data|;
      }
      sum1, sum2 := SumChunk(data, offset, chunkEnd, sum1, sum2);
      n := chunkEnd / 4;
      ReducedOnce(sum1, sum2, ws, n);
      sum1 := sum1 % 0xFFFF_FFFF;
      sum2 := sum2 % 0xFFFF_FFFF;
      offset := offset + CHUNK * 4;
    }
    CheckOfReduced(sum1 as int, sum2 as int, Sum1(ws), Sum2(ws));
    checksum := CheckValue(sum1, sum2);
  }

  /** The check words of reduced sums, combined into the stored 64-bit value. */
  method CheckValue(sum1: uint64, sum2: uint64) returns (checksum: seq<byte>)
    requires sum1 as int < 0xFFFF_FFFF && sum2 as int < 0xFFFF_FFFF
    ensures checksum == CheckBytes(CheckOf(sum1 as int, sum2 as int))
  {
    var ckLow: uint64 := 0xFFFF_FFFF - (sum1 + sum2) % 0xFFFF_FFFF;
    var ckHigh: uint64 := 0xFFFF_FFFF - (sum1 + ckLow) % 0xFFFF_FFFF;
    var result: uint64 := ckLow + 0x1_0000_0000 * ckHigh;  // ckLow | ckHigh << 32: the words do not overlap
    checksum := Le(8, result as int);
  }

  const MAX_CKSUM_SIZE := 8

  /** What is summed for a stored object: its bytes with the checksum field zeroed. */
  function Summed(payload: seq<byte>): seq<byte>
    requires |payload| >= MAX_CKSUM_SIZE
  {
    seq(MAX_CKSUM_SIZE, _ => 0) + payload[MAX_CKSUM_SIZE..]
  }

  /** Zeroes the checksum field in place. Panics, index out of range, on fewer than eight bytes. */
  method ZeroChecksum(a: array<byte>) returns (r: Outcome<()>)
    modifies a
    ensures r == if a.Length < MAX_CKSUM_SIZE then Panic else Ok(())
    ensures r.Ok? ==> a[..] == Summed(old(a[..]))
  {
    var i := 0;
    while i < MAX_CKSUM_SIZE
      invariant i <= MAX_CKSUM_SIZE && i <= a.Length
      invariant forall j :: 0 <= j < i ==> a[j] == 0
      invariant forall j :: i <= j < a.Length ==> a[j] == old(a[j])
    {
      if i >= a.Length {
        return Panic;
      }
      a[i] := 0;
      i := i + 1;
    }
    r := Ok(());
  }

  /** Recomputes the checksum of an object and compares it with the stored field. */
  method VerifyChecksum(stored: seq<byte>, payload: seq<byte>) returns (r: Outcome<bool>)
    ensures r == Verdict(stored, payload)
  {
    if |payload| % 4 != 0 {
      return Ok(false);
    }
    var payloadCopy := new byte[|payload|](i requires 0 <= i < |payload| => payload[i]);
    assert payloadCopy[..] == payload;
    var zeroed := ZeroChecksum(payloadCopy);
    if zeroed.Panic? {
      return Panic;
    }
    var calculated := ComputeFletcher64(payloadCopy[..]);
    r := Ok(calculated == stored);
  }

  function Verdict(stored: seq<byte>, payload: seq<byte>): Outcome<bool> {
    if |payload| % 4 != 0 then Ok(false)
    else if |payload| < MAX_CKSUM_SIZE then Panic
    else Ok(Fletcher64(Summed(payload)) == stored)
  }

  /** Verification panics exactly on objects of zero or four bytes. */
  lemma VerdictPanicsIff(stored: seq<byte>, payload: seq<byte>)
    ensures Verdict(stored, payload) == Panic <==> |payload| == 0 || |payload| == 4
  {}

  lemma FourBytesPanic(stored: seq<byte>)
    ensures Verdict(stored, [1, 2, 3, 4]) == Panic
  {}

  // ---------------------------------------------------------------------------------------------------------------
  // What the check words mean
  // ---------------------------------------------------------------------------------------------------------------

  lemma {:induction false} SumsOfPrefix(ws: seq<word>, more: seq<word>, n: nat)
    requires n <= |ws|
    ensures Prefix1(ws + more, n) == Prefix1(ws, n) && Prefix2(ws + more, n) == Prefix2(ws, n)
  {
    if n != 0 {
      SumsOfPrefix(ws, more, n - 1);
    }
  }

  /** The sums after two more words. */
  lemma SumsOfAppendTwo(ws: seq<word>, a: word, b: word)
    ensures Sum1(ws + [a, b]) == Sum1(ws) + a + b
    ensures Sum2(ws + [a, b]) == Sum2(ws) + 2 * Sum1(ws) + 2 * a + b
  {
    SumsOfPrefix(ws, [a, b], |ws|);
    var all, n := ws + [a, b], |ws|;
    assert Prefix1(all, n + 2) == Prefix1(all, n + 1) + b && Prefix1(all, n + 1) == Prefix1(all, n) + a;
    assert Prefix2(all, n + 2) == Prefix2(all, n + 1) + Prefix1(all, n + 2);
  }

  /** Both check words fit 32 bits and neither is zero. */
  lemma CheckWordsNonZero(s1: nat, s2: nat)
    ensures var c := CheckOf(s1, s2); 0 < c.low < 0x1_0000_0000 && 0 < c.high < 0x1_0000_0000
  {}

  lemma CheckBytesSplit(c: Check)
    requires c.low < 0x1_0000_0000
    ensures CheckBytes(c) == Le(4, c.low) + Le(4, c.high)
  {
    assert Pow256(4) == 0x1_0000_0000;
    LeSplit(4, 4, c.low, c.high);
  }

  lemma WordsOfChecked(data: seq<byte>, c: Check)
    requires |data| % 4 == 0 && c.low < 0x1_0000_0000 && c.high < 0x1_0000_0000
    ensures Words(data + CheckBytes(c)) == Words(data) + [c.low, c.high]
  {
    var n := |data| / 4;
    var all := data + CheckBytes(c);
    CheckBytesSplit(c);
    assert all[4 * n..4 * n + 4] == Le(4, c.low);
    Uint32IsLe(all, 4 * n, c.low);
    assert all[4 * n + 4..4 * n + 8] == Le(4, c.high);
    Uint32IsLe(all, 4 * n + 4, c.high);
    WordsPrefix(data, CheckBytes(c));
    assert Words(all)[..n] == Words(data);
    assert Words(all)[n] == c.low && Words(all)[n + 1] == c.high;
  }

  lemma WordsPrefix(a: seq<byte>, b: seq<byte>)
    requires |a| % 4 == 0
    ensures Words(a + b)[..|a| / 4] == Words(a)
  {
    forall i | 0 <= i < |a| / 4
      ensures Words(a + b)[i] == Words(a)[i]
    {
      assert 4 * i + 3 < |a|;
    }
  }

  /** Appending the checksum to the summed data drives both sums to zero modulo 2^32 - 1. */
  lemma ChecksumMakesSumsVanish(data: seq<byte>)
    requires |data| % 4 == 0
    ensures Residue(Sum1(Words(data + Fletcher64(data)))) == 0
    ensures Residue(Sum2(Words(data + Fletcher64(data)))) == 0
  {
    var ws := Words(data);
    var c := CheckFor(data);
    WordsOfChecked(data, c);
    SumsOfAppendTwo(ws, c.low, c.high);
    CheckWordsVanish(Sum1(ws), Sum2(ws));
  }

  lemma CheckWordsVanish(s1: nat, s2: nat)
    ensures var c := CheckOf(s1, s2);
            Residue(s1 + c.low + c.high) == 0 && Residue(s2 + 2 * s1 + 2 * c.low + c.high) == 0
  {
    var c := CheckOf(s1, s2);
    assert Residue(s1 + c.low + c.high) == 0;
    assert Residue(s1 + s2 + c.low) == 0;
    ResidueSum(s1 + c.low + c.high, 0, s1 + s2 + c.low, 0);
  }

  /** Two values in 1 .. 2^32 - 1 that agree modulo 2^32 - 1 are equal. */
  lemma ResidueUnique(x: nat, y: nat)
    requires 0 < x < 0x1_0000_0000 && 0 < y < 0x1_0000_0000 && Residue(x) == Residue(y)
    ensures x == y
  {}

  lemma VanishingWordsUnique(s1: nat, s2: nat, c: Check)
    requires 0 < c.low < 0x1_0000_0000 && 0 < c.high < 0x1_0000_0000
    requires Residue(s1 + c.low + c.high) == 0 && Residue(s2 + 2 * s1 + 2 * c.low + c.high) == 0
    ensures c == CheckOf(s1, s2)
  {
    var e := CheckOf(s1, s2);
    CheckWordsNonZero(s1, s2);
    CheckWordsVanish(s1, s2);
    var rest, low := s1 + s2 + c.low, s1 + s2 + e.low;
    ResidueCancelBoth(s1 + c.low + c.high, s1 + e.low + e.high, rest, low);
    ResidueCancel(s1 + s2, c.low, e.low);
    ResidueUnique(c.low, e.low);
    ResidueCancel(s1 + c.low, c.high, e.high);
    ResidueUnique(c.high, e.high);
  }

  /** The checksum is the only field of non-zero words that makes both sums vanish. */
  lemma OnlyChecksumMakesSumsVanish(data: seq<byte>, c: Check)
    requires |data| % 4 == 0 && 0 < c.low < 0x1_0000_0000 && 0 < c.high < 0x1_0000_0000
    ensures CheckBytes(c) == Fletcher64(data) <==>
              && Residue(Sum1(Words(data + CheckBytes(c)))) == 0
              && Residue(Sum2(Words(data + CheckBytes(c)))) == 0
  {
    var ws := Words(data);
    WordsOfChecked(data, c);
    SumsOfAppendTwo(ws, c.low, c.high);
    if CheckBytes(c) == Fletcher64(data) {
      ChecksumMakesSumsVanish(data);
    } else if Residue(Sum1(Words(data + CheckBytes(c)))) == 0 && Residue(Sum2(Words(data + CheckBytes(c)))) == 0 {
      VanishingWordsUnique(Sum1(ws), Sum2(ws), c);
    }
  }

  /** An object stored with its own checksum in front verifies, whatever the field held before. */
  lemma SealedObjectVerifies(payload: seq<byte>)
    requires |payload| >= MAX_CKSUM_SIZE && |payload| % 4 == 0
    ensures var sealed := Fletcher64(Summed(payload)) + payload[MAX_CKSUM_SIZE..];
            Verdict(sealed[..MAX_CKSUM_SIZE], sealed) == Ok(true)
  {
    var sealed := Fletcher64(Summed(payload)) + payload[MAX_CKSUM_SIZE..];
    assert sealed[MAX_CKSUM_SIZE..] == payload[MAX_CKSUM_SIZE..];
    assert Summed(sealed) == Summed(payload);
  }

  // ---------------------------------------------------------------------------------------------------------------
  // Which changes a checksum detects
  // ---------------------------------------------------------------------------------------------------------------

  lemma CheckBytesInjective(c: Check, d: Check)
    requires c.low < 0x1_0000_0000 && c.high < 0x1_0000_0000 && d.low < 0x1_0000_0000 && d.high < 0x1_0000_0000
    requires CheckBytes(c) == CheckBytes(d)
    ensures c == d
  {
    WordsOfChecked([], c);
    WordsOfChecked([], d);
    assert [] + CheckBytes(c) == CheckBytes(c) && [] + CheckBytes(d) == CheckBytes(d);
    var ws: seq<word> := Words([]) + [c.low, c.high];
    assert ws[0] == c.low && ws[1] == c.high;
    assert ws == Words([]) + [d.low, d.high];
  }

  lemma CheckOfInjective(s1: nat, s2: nat, t1: nat, t2: nat)
    requires CheckOf(s1, s2) == CheckOf(t1, t2)
    ensures Residue(s1) == Residue(t1) && Residue(s2) == Residue(t2)
  {
    ResidueCancel(CheckOf(s1, s2).low, s1, t1);
    ResidueCancelBoth(s1, t1, s2, t2);
  }

  lemma ResidueCancel(a: int, x: int, y: int)
    requires Residue(x + a) == Residue(y + a)
    ensures Residue(x) == Residue(y)
  {
    var m := -a;
    ResidueSum(x + a, y + a, m, m);
  }

  lemma ResidueCancelBoth(a: int, b: int, x: int, y: int)
    requires Residue(a) == Residue(b) && Residue(a + x) == Residue(b + y)
    ensures Residue(x) == Residue(y)
  {
    ResidueSum(a, b, y, y);
    ResidueCancel(a, x, y);
  }

  /** Two payloads share a checksum exactly when both sums agree modulo 2^32 - 1. */
  lemma SameChecksumIff(a: seq<byte>, b: seq<byte>)
    ensures Fletcher64(a) == Fletcher64(b) <==>
              && Residue(Sum1(Words(a))) == Residue(Sum1(Words(b)))
              && Residue(Sum2(Words(a))) == Residue(Sum2(Words(b)))
  {
    var s1, s2, t1, t2 := Sum1(Words(a)), Sum2(Words(a)), Sum1(Words(b)), Sum2(Words(b));
    if Fletcher64(a) == Fletcher64(b) {
      CheckWordsNonZero(s1, s2);
      CheckWordsNonZero(t1, t2);
      CheckBytesInjective(CheckFor(a), CheckFor(b));
      CheckOfInjective(s1, s2, t1, t2);
    } else if Residue(s1) == Residue(t1) && Residue(s2) == Residue(t2) {
      CheckOfReduced(s1, s2, t1, t2);
    }
  }

  /** Replacing word `i` moves the first sum by the difference and the second by that many times the words left. */
  lemma {:induction false} PrefixesOfUpdate(ws: seq<word>, i: nat, w: word, n: nat)
    requires i < |ws| && n <= |ws|
    ensures Prefix1(ws[i := w], n) == Prefix1(ws, n) + (if i < n then w as int - ws[i] as int else 0)
    ensures Prefix2(ws[i := w], n) == Prefix2(ws, n) + (if i < n then (n - i) * (w as int - ws[i] as int) else 0)
  {
    if n != 0 {
      PrefixesOfUpdate(ws, i, w, n - 1);
      var d := w as int - ws[i] as int;
      assert (n - i) * d == (n - 1 - i) * d + d;
    }
  }

  lemma SumsOfUpdate(ws: seq<word>, i: nat, w: word)
    requires i < |ws|
    ensures Sum1(ws[i := w]) == Sum1(ws) + (w as int - ws[i] as int)
    ensures Sum2(ws[i := w]) == Sum2(ws) + (|ws| - i) * (w as int - ws[i] as int)
  {
    PrefixesOfUpdate(ws, i, w, |ws|);
  }

  lemma WordChangeMovesSums(ws: seq<word>, i: nat, w: word)
    requires i < |ws|
    ensures Residue(Sum1(ws)) == Residue(Sum1(ws[i := w])) && Residue(Sum2(ws)) == Residue(Sum2(ws[i := w])) <==>
              Residue(w) == Residue(ws[i])
  {
    SumsOfUpdate(ws, i, w);
    WordShiftDetected(Sum1(ws), Sum2(ws), Sum1(ws[i := w]), Sum2(ws[i := w]), |ws| - i, ws[i], w);
  }

  /** A change of one word goes unnoticed exactly when it swaps 0 and 0xFFFFFFFF (or changes nothing). */
  lemma WordChangeDetected(a: seq<byte>, b: seq<byte>, i: nat, w: word)
    requires i < |Words(a)| && Words(b) == Words(a)[i := w]
    ensures Fletcher64(a) == Fletcher64(b) <==> Residue(w) == Residue(Words(a)[i])
  {
    SameChecksumIff(a, b);
    WordChangeMovesSums(Words(a), i, w);
  }

  lemma WordShiftDetected(s1: nat, s2: nat, t1: nat, t2: nat, k: nat, before: int, after: int)
    requires t1 == s1 + (after - before) && t2 == s2 + k * (after - before)
    ensures Residue(s1) == Residue(t1) && Residue(s2) == Residue(t2) <==> Residue(after) == Residue(before)
  {
    ShiftsDetected(s1, s2, k, after - before);
    ResidueShift(before, after - before);
  }

  lemma ShiftsDetected(s1: nat, s2: nat, k: nat, d: int)
    ensures Residue(s1 + d) == Residue(s1) && Residue(s2 + k * d) == Residue(s2) <==> Residue(d) == 0
  {
    ResidueShift(s1, d);
    if Residue(d) == 0 {
      ResidueMultiple(k, d);
      ResidueShift(s2, k * d);
    }
  }

  lemma ResidueShift(x: int, d: int)
    ensures Residue(x + d) == Residue(x) <==> Residue(d) == 0
  {}

  lemma ResidueMultiple(k: nat, d: int)
    requires Residue(d) == 0
    ensures Residue(k * d) == 0
  {
    if k != 0 {
      ResidueMultiple(k - 1, d);
      assert k * d == (k - 1) * d + d;
      ResidueSum((k - 1) * d, 0, d, 0);
    }
  }

  /** Swapping words `i < j` goes unnoticed exactly when (j - i) times their difference vanishes modulo 2^32 - 1. */
  lemma SwapDetected(a: seq<byte>, b: seq<byte>, i: nat, j: nat)
    requires i < j < |Words(a)|
    requires Words(b) == Words(a)[i := Words(a)[j]][j := Words(a)[i]]
    ensures Fletcher64(a) == Fletcher64(b) <==>
              Residue((j - i) * (Words(a)[j] as int - Words(a)[i] as int)) == 0
  {
    var ws := Words(a);
    SameChecksumIff(a, b);
    SumsOfSwap(ws, i, j);
    ResidueShift(Sum2(ws), (j - i) * (ws[j] as int - ws[i] as int));
  }

  lemma SumsOfSwap(ws: seq<word>, i: nat, j: nat)
    requires i < j < |ws|
    ensures Sum1(ws[i := ws[j]][j := ws[i]]) == Sum1(ws)
    ensures Sum2(ws[i := ws[j]][j := ws[i]]) == Sum2(ws) + (j - i) * (ws[j] as int - ws[i] as int)
  {
    SumsOfUpdate(ws, i, ws[j]);
    SumsOfUpdate(ws[i := ws[j]], j, ws[i]);
    WeightsCancel(|ws| - i, |ws| - j, ws[j], ws[i]);
  }

  lemma WeightsCancel(m: nat, n: nat, a: int, b: int)
    ensures m * (a - b) + n * (b - a) == (m - n) * (a - b)
  {}

  /** Adjacent words: unnoticed exactly when they agree modulo 2^32 - 1. */
  lemma AdjacentSwapDetected(a: seq<byte>, b: seq<byte>, i: nat)
    requires i + 1 < |Words(a)|
    requires Words(b) == Words(a)[i := Words(a)[i + 1]][i + 1 := Words(a)[i]]
    ensures Fletcher64(a) == Fletcher64(b) <==> Residue(Words(a)[i]) == Residue(Words(a)[i + 1])
  {
    var d := Words(a)[i + 1] as int - Words(a)[i] as int;
    assert Fletcher64(a) == Fletcher64(b) <==> Residue(d) == 0 by {
      SwapDetected(a, b, i, i + 1);
      assert (i + 1 - i) * d == d;
    }
    ResidueShift(Words(a)[i], d);
  }

  /**
    An object that verifies stops verifying after any change to one of its words outside the checksum field, unless
    the change exchanges 0 and 0xFFFFFFFF.
   */
  lemma VerifyDetectsWordChange(stored: seq<byte>, good: seq<byte>, bad: seq<byte>, i: nat, w: word)
    requires |good| == |bad| && Verdict(stored, good) == Ok(true)
    requires 2 <= i < |Words(good)| && Words(bad) == Words(good)[i := w]
    ensures Verdict(stored, bad) == Ok(Residue(w) == Residue(Words(good)[i]))
  {
    SummedWords(good);
    SummedWords(bad);
    WordChangeDetected(Summed(good), Summed(bad), i, w);
  }

  /** Zeroing the checksum field zeroes the first two words and leaves the others. */
  lemma SummedWords(payload: seq<byte>)
    requires |payload| >= MAX_CKSUM_SIZE
    ensures Words(Summed(payload)) == Words(payload)[0 := 0][1 := 0]
  {
    var summed := Summed(payload);
    forall i | 2 <= i < |payload| / 4
      ensures Words(summed)[i] == Words(payload)[i]
    {
      assert 4 * i >= 8;
    }
    assert Uint32(summed, 0) == 0 && Uint32(summed, 4) == 0;
  }
}
