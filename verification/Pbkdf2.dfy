/** PBKDF2 key derivation (internal/services/crypto_service.go), over an arbitrary pseudorandom function. */
module Pbkdf2 {
  import opened Outcomes

  const HASH_LEN := 32

  type digest = s: seq<bv8> | |s| == HASH_LEN witness seq(HASH_LEN, _ => 0)

  /** Stands for HMAC-SHA-256: a key and a message give a digest. */
  type Prf = (seq<bv8>, seq<bv8>) -> digest

  // ---------------------------------------------------------------------------------------------------------------
  // Section 5.2 of RFC 2898
  // ---------------------------------------------------------------------------------------------------------------

  /** INT(i): four octets, most significant first. */
  function IndexOctets(block: nat): seq<byte> {
    [block / 0x100_0000 % 256, block / 0x1_0000 % 256, block / 0x100 % 256, block % 256]
  }

  function BlockIndex(block: nat): seq<bv8> {
    var o := IndexOctets(block);
    [o[0] as bv8, o[1] as bv8, o[2] as bv8, o[3] as bv8]
  }

  /** U_c of a block. */
  function U(prf: Prf, password: seq<bv8>, salt: seq<bv8>, block: nat, c: nat): digest
    requires c >= 1
  {
    if c == 1 then prf(password, salt + BlockIndex(block)) else prf(password, U(prf, password, salt, block, c - 1))
  }

  function Xor(a: digest, b: digest): digest {
    seq(HASH_LEN, i requires 0 <= i < HASH_LEN => a[i] ^ b[i])
  }

  /** T of a block: U_1 xor ... xor U_c. */
  function T(prf: Prf, password: seq<bv8>, salt: seq<bv8>, block: nat, c: nat): digest
    requires c >= 1
  {
    if c == 1 then U(prf, password, salt, block, 1)
    else Xor(T(prf, password, salt, block, c - 1), U(prf, password, salt, block, c))
  }

  /** T_1 || ... || T_n. */
  function KeyStream(prf: Prf, password: seq<bv8>, salt: seq<bv8>, c: nat, n: nat): (s: seq<bv8>)
    requires c >= 1
    ensures |s| == 32 * n
  {
    if n == 0 then [] else KeyStream(prf, password, salt, c, n - 1) + T(prf, password, salt, n, c)
  }

  /** The number of blocks a key needs: its length over 32, rounded up. */
  function Blocks(keyLen: nat): (n: nat)
    ensures 32 * n >= keyLen && (n > 0 ==> 32 * (n - 1) < keyLen)
  {
    (keyLen + 31) / 32
  }

  /** The derived key: the first keyLen octets of T_1 || T_2 || ... */
  function DerivedKey(prf: Prf, password: seq<bv8>, salt: seq<bv8>, c: nat, keyLen: nat): seq<bv8>
    requires c >= 1
  {
    KeyStream(prf, password, salt, c, Blocks(keyLen))[..keyLen]
  }

  // ---------------------------------------------------------------------------------------------------------------
  // The in-place computation
  // ---------------------------------------------------------------------------------------------------------------

  method XorInto(result: array<bv8>, u: digest)
    requires result.Length == HASH_LEN
    modifies result
    ensures result[..] == Xor(old(result[..]), u)
  {
    var j := 0;
    while j < HASH_LEN
      invariant j <= HASH_LEN
      invariant forall k :: 0 <= k < j ==> result[k] == old(result[k]) ^ u[k]
      invariant forall k :: j <= k < HASH_LEN ==> result[k] == old(result[k])
    {
      result[j] := result[j] ^ u[j];
      j := j + 1;
    }
  }

  /** One block. An iteration count below one counts as one. */
  method Pbkdf2Block(prf: Prf, password: seq<bv8>, salt: seq<bv8>, iterations: int, block: nat)
    returns (hash: digest)
    ensures hash == T(prf, password, salt, block, Max(iterations, 1))
  {
    var u := prf(password, salt + BlockIndex(block));
    var result := new bv8[HASH_LEN](i requires 0 <= i < HASH_LEN => u[i]);
    assert result[..] == u;
    var i := 1;
    while i < iterations
      invariant 1 <= i <= Max(iterations, 1)
      invariant u == U(prf, password, salt, block, i)
      invariant result[..] == T(prf, password, salt, block, i)
    {
      u := prf(password, u);
      XorInto(result, u);
      i := i + 1;
    }
    hash := result[..];
  }

  /** Go's copy into a slice of the result. */
  method CopyAt(result: array<bv8>, start: nat, part: seq<bv8>)
    requires start + |part| <= result.Length
    modifies result
    ensures result[..start + |part|] == old(result[..start]) + part
  {
    forall k | 0 <= k < |part| {
      result[start + k] := part[k];
    }
  }

  /** Fills one block's slice of the result. */
  method FillBlock(
    prf: Prf, password: seq<bv8>, salt: seq<bv8>, iterations: int, block: nat, blockStart: nat, blockEnd: nat,
    result: array<bv8>, ghost stream: seq<bv8>)
    requires block >= 1 && blockStart == 32 * (block - 1)
    requires blockStart <= blockEnd <= Min(blockStart + 32, result.Length)
    requires blockStart + 32 <= |stream|
    requires stream[blockStart..blockStart + 32] == T(prf, password, salt, block, Max(iterations, 1))
    requires result[..blockStart] == stream[..blockStart]
    modifies result
    ensures result[..blockEnd] == stream[..blockEnd]
  {
    var hash := Pbkdf2Block(prf, password, salt, iterations, block);
    StreamGrows(stream, blockStart, hash, blockEnd - blockStart);
    CopyAt(result, blockStart, hash[..blockEnd - blockStart]);
  }

  /** A negative key length makes the allocation panic. */
  method Derive(prf: Prf, password: seq<bv8>, salt: seq<bv8>, iterations: int, keyLen: int)
    returns (r: Outcome<array<bv8>>)
    ensures r.Panic? <==> keyLen < 0
    ensures keyLen >= 0 ==>
              && r.Ok? && fresh(r.value)
              && r.value[..] == DerivedKey(prf, password, salt, Max(iterations, 1), keyLen)
  {
    if keyLen < 0 {
      return Panic;
    }
    ghost var c, blocks := Max(iterations, 1), Blocks(keyLen);
    ghost var stream := KeyStream(prf, password, salt, c, blocks);
    var result := new bv8[keyLen](_ => 0);
    var blockCount := (keyLen + 31) / 32;
    var block := 1;
    while block <= blockCount
      invariant 1 <= block <= blockCount + 1 && result.Length == keyLen
      invariant var done := Min(32 * (block - 1), keyLen); result[..done] == stream[..done]
    {
      var blockStart := (block - 1) * 32;
      var blockEnd := blockStart + 32;
      if blockEnd > keyLen {
        blockEnd := keyLen;
      }
      StreamBlock(prf, password, salt, c, block, blocks);
      FillBlock(prf, password, salt, iterations, block, blockStart, blockEnd, result, stream);
      block := block + 1;
    }
    assert result[..] == result[..keyLen];
    r := Ok(result);
  }

  lemma StreamGrows(stream: seq<bv8>, start: nat, hash: digest, size: nat)
    requires start + 32 <= |stream| && stream[start..start + 32] == hash && size <= 32
    ensures stream[..start + size] == stream[..start] + hash[..size]
  {
    assert hash[..size] == stream[start..start + size];
  }

  // ---------------------------------------------------------------------------------------------------------------
  // Prefixes
  // ---------------------------------------------------------------------------------------------------------------

  lemma {:induction false} StreamPrefix(prf: Prf, password: seq<bv8>, salt: seq<bv8>, c: nat, m: nat, n: nat)
    requires c >= 1 && m <= n
    ensures KeyStream(prf, password, salt, c, m) <= KeyStream(prf, password, salt, c, n)
  {
    if m < n {
      StreamPrefix(prf, password, salt, c, m, n - 1);
    }
  }

  lemma StreamBlock(prf: Prf, password: seq<bv8>, salt: seq<bv8>, c: nat, block: nat, n: nat)
    requires c >= 1 && 1 <= block <= n
    ensures KeyStream(prf, password, salt, c, n)[32 * (block - 1)..32 * (block - 1) + 32] ==
              T(prf, password, salt, block, c)
  {
    StreamPrefix(prf, password, salt, c, block, n);
    var some, all := KeyStream(prf, password, salt, c, block), KeyStream(prf, password, salt, c, n);
    assert all[..|some|] == some;
    assert all[32 * (block - 1)..32 * block] == all[..32 * block][32 * (block - 1)..];
  }

  /** A shorter key is a prefix of a longer one. */
  lemma ShorterKeyIsPrefix(prf: Prf, password: seq<bv8>, salt: seq<bv8>, c: nat, a: nat, b: nat)
    requires c >= 1 && a <= b
    ensures DerivedKey(prf, password, salt, c, a) <= DerivedKey(prf, password, salt, c, b)
  {
    assert Blocks(a) <= Blocks(b);
    StreamPrefix(prf, password, salt, c, Blocks(a), Blocks(b));
  }

  /** INT(i): the octets, most significant first, make up the block number below 2^32. */
  lemma BlockIndexIs(block: nat)
    requires block < 0x1_0000_0000
    ensures var o := IndexOctets(block);
            && block == 0x100_0000 * o[0] as int + 0x1_0000 * o[1] as int + 0x100 * o[2] as int + o[3] as int
            && BlockIndex(block) == [o[0] as bv8, o[1] as bv8, o[2] as bv8, o[3] as bv8]
  {
    var a, b := block / 0x100, block / 0x100 / 0x100;
    assert block / 0x1_0000 == b && block / 0x100_0000 == b / 0x100;
    assert a == 0x100 * b + a % 0x100;
  }

  lemma FirstIndex()
    ensures BlockIndex(1) == [0, 0, 0, 1]
  {
    assert IndexOctets(1) == [0, 0, 0, 1];
  }

  /** A key of one block: one iteration gives the pseudorandom function of salt and index, two the XOR with its own. */
  lemma OneBlockKey(prf: Prf, password: seq<bv8>, salt: seq<bv8>, i: nat)
    requires i < 32
    ensures DerivedKey(prf, password, salt, 1, 32) == prf(password, salt + [0, 0, 0, 1])
    ensures var u := prf(password, salt + [0, 0, 0, 1]);
            |DerivedKey(prf, password, salt, 2, 32)| == 32
            && DerivedKey(prf, password, salt, 2, 32)[i] == u[i] ^ prf(password, u)[i]
  {
    FirstIndex();
    assert Blocks(32) == 1;
    forall c | 1 <= c <= 2
      ensures DerivedKey(prf, password, salt, c, 32) == T(prf, password, salt, 1, c)
    {
      assert KeyStream(prf, password, salt, c, 1)
          == KeyStream(prf, password, salt, c, 0) + T(prf, password, salt, 1, c);
    }
  }
}
