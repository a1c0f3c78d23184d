/** The cryptographic primitives, known only by their shapes and the laws named here. */
module Crypto {
  import opened Bytes

  type Block = b: Bytes | |b| == 16 witness seq(16, _ => 0)
  type Digest20 = b: Bytes | |b| == 20 witness seq(20, _ => 0)
  type Digest32 = b: Bytes | |b| == 32 witness seq(32, _ => 0)

  datatype Suite = Suite(
    sha1: Bytes -> Digest20, sha256: Bytes -> Digest32, hmac: (Bytes, Bytes) -> Digest32,
    enc: (Bytes, Block) -> Block, dec: (Bytes, Block) -> Block)
  {
    /** Under every key the block cipher is a permutation. */
    ghost predicate Lawful() {
      && (forall k: Bytes, x: Block :: dec(k, enc(k, x)) == x)
      && (forall k: Bytes, x: Block :: enc(k, dec(k, x)) == x)
    }
  }

  /** AES accepts keys of 16, 24 and 32 bytes. */
  predicate AesKey(key: Bytes) { |key| in {16, 24, 32} }
}
