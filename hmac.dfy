/** HMAC-SHA-256 as `hmacSha256Hex` (nodemcu/poot_lock/local_unlock.cpp) builds it, following
    section 2 of RFC 2104 with block size B = 64 and digest length L = 32. The SHA-256
    compression itself is not modelled: the hash is a parameter, any function from byte
    strings to 32-byte digests. */
module Hmac {
  import opened Encoding

  const BlockSize: nat := 64
  const DigestSize: nat := 32
  const InnerPadByte: byte := 0x36
  const OuterPadByte: byte := 0x5C

  type Digest = s: seq<byte> | |s| == 32 witness seq(32, _ => 0)

  /** A SHA-256 implementation, left abstract. */
  type Sha256 = seq<byte> -> Digest

  function Zeros(n: nat): (z: seq<byte>)
    ensures |z| == n && forall i :: 0 <= i < n ==> z[i] == 0
  {
    seq(n, _ => 0)
  }

  /** The 64-byte key block: a key longer than the block is replaced by its hash, and the
      result (or the short key) is padded with zero bytes. */
  function KeyBlock(hash: Sha256, key: seq<byte>): (block: seq<byte>)
    ensures |block| == BlockSize
    ensures var used := if |key| > BlockSize then hash(key) else key;
            block[..|used|] == used && forall i :: |used| <= i < BlockSize ==> block[i] == 0
  {
    if |key| > BlockSize then hash(key) + Zeros(BlockSize - DigestSize)
    else key + Zeros(BlockSize - |key|)
  }

  /** Every byte of `block` XOR-ed with `pad`. */
  function XorPad(block: seq<byte>, pad: byte): (r: seq<byte>)
    ensures |r| == |block| && forall i :: 0 <= i < |r| ==> r[i] == block[i] ^ pad
  {
    seq(|block|, i requires 0 <= i < |block| => block[i] ^ pad)
  }

  /** H(K ^ opad, H(K ^ ipad, text)). */
  function HmacSha256(hash: Sha256, key: seq<byte>, message: seq<byte>): Digest {
    var block := KeyBlock(hash, key);
    hash(XorPad(block, OuterPadByte) + hash(XorPad(block, InnerPadByte) + message))
  }

  /** RFC 2104: a key shorter than the block is padded with zeros, so appending a zero byte
      to such a key does not change the code. */
  lemma ShortKeyZeroPadding(hash: Sha256, key: seq<byte>, message: seq<byte>)
    requires |key| < BlockSize
    ensures HmacSha256(hash, key + [0], message) == HmacSha256(hash, key, message)
  {
    assert KeyBlock(hash, key + [0]) == KeyBlock(hash, key);
  }

  /** RFC 2104: a key longer than the block is first hashed, so it authenticates exactly like
      its digest used as the key. */
  lemma LongKeyIsHashed(hash: Sha256, key: seq<byte>, message: seq<byte>)
    requires |key| > BlockSize
    ensures HmacSha256(hash, key, message) == HmacSha256(hash, hash(key), message)
  {
    assert KeyBlock(hash, key) == KeyBlock(hash, hash(key));
  }

  /** `hmacSha256Hex`: fills the key block, derives both pads in one loop, hashes twice and
      hex-encodes the digest; the result is always 64 lower-case hex characters. */
  method HmacSha256Hex(hash: Sha256, key: seq<byte>, message: seq<byte>) returns (hex: seq<byte>)
    ensures hex == Hex(HmacSha256(hash, key, message))
    ensures |hex| == 2 * DigestSize && IsLowerHex(hex)
  {
    var keyBlock := KeyBlock(hash, key);
    var innerPad := new byte[BlockSize];
    var outerPad := new byte[BlockSize];
    for i := 0 to BlockSize
      invariant forall j :: 0 <= j < i ==> innerPad[j] == keyBlock[j] ^ InnerPadByte
      invariant forall j :: 0 <= j < i ==> outerPad[j] == keyBlock[j] ^ OuterPadByte
    {
      innerPad[i] := keyBlock[i] ^ InnerPadByte;
      outerPad[i] := keyBlock[i] ^ OuterPadByte;
    }
    assert innerPad[..] == XorPad(keyBlock, InnerPadByte);
    assert outerPad[..] == XorPad(keyBlock, OuterPadByte);
    var innerHash := hash(innerPad[..] + message);
    var out := hash(outerPad[..] + innerHash);
    hex := ToHex(out);
  }
}
