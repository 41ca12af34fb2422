/** Bytes, digests and the hash function, which stays a parameter of everything built on it. */
module Digests {
  type Byte = bv8
  type Bytes = seq<bv8>

  lemma NextByte(b: Byte)
    requires b < 255
    ensures (b + 1) as nat == b as nat + 1
  {
  }

  /** The byte of a number. */
  function ByteOf(d: nat): (b: Byte)
    requires d < 256
    ensures b as nat == d
  {
    if d == 0 then 0
    else
      var below := ByteOf(d - 1);
      NextByte(below);
      below + 1
  }

  /** A 32-byte value: a hash output, a tree node or a weight chunk. */
  type Digest = s: seq<bv8> | |s| == 32 witness seq(32, _ => 0)

  /** blake3 as far as the model is concerned: any function from byte strings to digests. */
  type Hash = Bytes -> Digest

  function Join(left: Bytes, right: Bytes): Bytes {
    left + right
  }

  /** The parent of two nodes: the hash of their 64-byte concatenation. */
  function HashPair(h: Hash, left: Digest, right: Digest): Digest {
    h(Join(left, right))
  }

  /** A pair is no collision where the hashes differ, and none with itself. */
  lemma NoCollision(h: Hash, a: Bytes, b: Bytes)
    ensures h(a) != h(b) ==> !Collision(h, (a, b))
    ensures !Collision(h, (a, a))
  {
  }

  /** Two different byte strings with the same hash. */
  predicate Collision(h: Hash, pair: (Bytes, Bytes)) {
    pair.0 != pair.1 && h(pair.0) == h(pair.1)
  }
}
