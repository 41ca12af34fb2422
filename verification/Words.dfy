/** 64-bit words and their little-endian bytes. */
module Words {
  import opened Digests

  type Word = bv64

  function LeBytes(x: Word): (b: Bytes)
    ensures |b| == 8
  {
    [ (x & 0xff) as bv8, ((x >> 8) & 0xff) as bv8, ((x >> 16) & 0xff) as bv8, ((x >> 24) & 0xff) as bv8,
      ((x >> 32) & 0xff) as bv8, ((x >> 40) & 0xff) as bv8, ((x >> 48) & 0xff) as bv8, ((x >> 56) & 0xff) as bv8 ]
  }

  /** The word a block of eight little-endian bytes spells. */
  function WordOf(b: Bytes): Word
    requires |b| == 8
  {
    (b[0] as bv64) | ((b[1] as bv64) << 8) | ((b[2] as bv64) << 16) | ((b[3] as bv64) << 24)
    | ((b[4] as bv64) << 32) | ((b[5] as bv64) << 40) | ((b[6] as bv64) << 48) | ((b[7] as bv64) << 56)
  }

  /** Word `i` of a byte string. */
  function WordAt(b: Bytes, i: nat): Word
    requires 8 * i + 8 <= |b|
  {
    WordOf(b[8 * i..8 * i + 8])
  }

  lemma WordOfLeBytes(x: Word)
    ensures WordOf(LeBytes(x)) == x
  {
  }

  lemma LeBytesOfWord(b: Bytes)
    requires |b| == 8
    ensures LeBytes(WordOf(b)) == b
  {
  }

  /** The least significant byte comes first. */
  lemma LeastFirst()
    ensures LeBytes(0x0807_0605_0403_0201) == [1, 2, 3, 4, 5, 6, 7, 8]
  {
  }

  function XorBytes(a: Bytes, b: Bytes): (x: Bytes)
    requires |a| == |b|
    ensures |x| == |a| && forall i :: 0 <= i < |a| ==> x[i] == a[i] ^ b[i]
  {
    seq(|a|, i requires 0 <= i < |a| => a[i] ^ b[i])
  }

  /** Xoring bytes is xoring words. */
  lemma WordOfXor(a: Bytes, b: Bytes)
    requires |a| == |b| == 8
    ensures WordOf(XorBytes(a, b)) == WordOf(a) ^ WordOf(b)
  {
  }
}
