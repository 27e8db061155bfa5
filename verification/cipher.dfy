/** The obfuscation cipher `bxor`, identical in both front ends: every byte
    is XORed with the key masked to its low eight bits. */
module Cipher {
  import opened Bytes

  /** A one-byte key as the key searches produce it: a Python `int` in 0..255. */
  type Key = k: int | 0 <= k < 256

  /** The fixed key `KEY` both front ends encode with. */
  const DefaultKey: Key := 0xAA

  /** Python's `key & 0xFF` on an arbitrary integer: Dafny's `%` is Euclidean,
      which agrees with Python's two's-complement `&` also for negative keys.
      Keys already in 0..255 are taken as they are (the same value). */
  function MaskKey(key: int): (k: bv8)
    ensures k as int == key % 256
  {
    ByteOf(if 0 <= key < 256 then key else key % 256)
  }

  /** `bxor(b, key)`: a new buffer of the same length, byte `i` being
      `b[i] ^ (key & 0xFF)`. */
  function Bxor(b: seq<bv8>, key: int): (r: seq<bv8>)
    ensures |r| == |b|
    ensures forall i :: 0 <= i < |b| ==> r[i] == b[i] ^ MaskKey(key)
  {
    var k := MaskKey(key);
    seq(|b|, i requires 0 <= i < |b| => b[i] ^ k)
  }

  /** The cipher is an involution for every key. */
  lemma BxorInvolution(b: seq<bv8>, key: int)
    ensures Bxor(Bxor(b, key), key) == b
  {
  }

  /** Keys that agree modulo 256 encrypt identically. */
  lemma BxorMasksKey(b: seq<bv8>, key: int)
    ensures Bxor(b, key) == Bxor(b, MaskKey(key) as int)
  {
  }

  /** Encryption commutes with taking a prefix (`bxor(enc[:n], k)` in the key
      search is a prefix of the full decryption). */
  lemma BxorTake(b: seq<bv8>, key: int, n: nat)
    ensures Bxor(b[..if n < |b| then n else |b|], key)
         == Bxor(b, key)[..if n < |b| then n else |b|]
  {
  }
}
