/**
 The arithmetic of `src/pom.rs` that fixes one block's rules: word and byte layouts, the seed and pow folds with the
 H3 salt, the walk transition, and the Fiat-Shamir draw. blake3 and mix64 are parameters.
 */
module Folds {
  import opened Digests
  import opened Words
  import opened MixChains
  import Pom
  import Binding
  import LE = LittleEndian

  /** blake3 and mix64, as arbitrary functions. */
  datatype Prims = Prims(blake: Hash, mix: Word -> Word)

  const H3_DAA: nat := 43_450_000

  function WordsOf(c: Digest): (w: seq<Word>)
    ensures |w| == 4
  {
    seq(4, i requires 0 <= i < 4 => WordAt(c, i))
  }

  function BytesOf(w: seq<Word>): Digest
    requires |w| == 4
  {
    LeBytes(w[0]) + LeBytes(w[1]) + LeBytes(w[2]) + LeBytes(w[3])
  }

  /** A chunk survives the trip through words. */
  lemma BytesOfWords(c: Digest)
    ensures BytesOf(WordsOf(c)) == c
  {
    forall i: nat | i < 4
      ensures LeBytes(WordsOf(c)[i]) == c[8 * i..8 * i + 8]
    {
      LeBytesOfWord(c[8 * i..8 * i + 8]);
    }
    assert c == c[0..8] + c[8..16] + c[16..24] + c[24..32];
  }

  lemma BlockOfBytes(w: seq<Word>, i: nat)
    requires |w| == 4 && i < 4
    ensures BytesOf(w)[8 * i..8 * i + 8] == LeBytes(w[i])
  {
    FourBlocks(LeBytes(w[0]), LeBytes(w[1]), LeBytes(w[2]), LeBytes(w[3]), i);
  }

  lemma FourBlocks(b0: Bytes, b1: Bytes, b2: Bytes, b3: Bytes, i: nat)
    requires |b0| == |b1| == |b2| == |b3| == 8 && i < 4
    ensures (b0 + b1 + b2 + b3)[8 * i..8 * i + 8] == [b0, b1, b2, b3][i]
  {
  }

  /** Words survive the trip through bytes. */
  lemma WordsOfBytes(w: seq<Word>)
    requires |w| == 4
    ensures WordsOf(BytesOf(w)) == w
  {
    forall i: nat | i < 4
      ensures WordAt(BytesOf(w), i) == w[i]
    {
      BlockOfBytes(w, i);
      WordOfLeBytes(w[i]);
    }
  }

  /** Exclusive or, as a function value. */
  function Xor(): (Word, Word) -> Word {
    (x: Word, y: Word) => x ^ y
  }

  function Transition(p: Prims, state: Word, chunk: seq<Word>): Word
    requires |chunk| == 4
  {
    p.mix(Sum(Xor(), state, chunk))
  }

  const H3_SALT: seq<Word> := [0x7C99D381176D4EC4, 0xC2E28E3E28118C36, 0xD496CE1B129B76CA, 0x47CF0979FA580BCE]

  function XorWords(a: seq<Word>, b: seq<Word>): (w: seq<Word>)
    requires |a| == |b| == 4
    ensures |w| == 4
  {
    seq(4, i requires 0 <= i < 4 => a[i] ^ b[i])
  }

  /** The words both folds read: salted from the H3 fork on. */
  function FoldWords(pph: Digest, daa: nat): (w: seq<Word>)
    ensures |w| == 4
  {
    if daa >= H3_DAA then XorWords(WordsOf(pph), H3_SALT) else WordsOf(pph)
  }

  const SEED_START: Word := 0x4B65727978531

  function SeedFold(p: Prims, w: seq<Word>, timestamp: Word, nonce: Word): Word
    requires |w| == 4
  {
    Chain(Xor(), p.mix, SEED_START, [nonce, timestamp] + w)
  }

  function BlockSeed(p: Prims, pph: Digest, daa: nat, timestamp: Word, nonce: Word): Word {
    SeedFold(p, FoldWords(pph, daa), timestamp, nonce)
  }

  function PowRound(p: Prims, o: Word, w: Word, salt: Word): Word {
    p.mix(Sum(Xor(), o, [w, salt]))
  }

  /** Each of the four words is folded from the one before. */
  function PowWords(p: Prims, finalState: Word, w: seq<Word>): (o: seq<Word>)
    requires |w| == 4
    ensures |o| == 4
  {
    var o0 := PowRound(p, finalState, w[0], 0x9E3779B97F4A7C15);
    var o1 := PowRound(p, o0, w[1], 0xC2B2AE3D27D4EB4F);
    var o2 := PowRound(p, o1, w[2], 0x165667B19E3779F9);
    var o3 := PowRound(p, o2, w[3], 0xD6E8FEB86659FD93);
    [o0, o1, o2, o3]
  }

  function PowFold(p: Prims, finalState: Word, w: seq<Word>): Digest
    requires |w| == 4
  {
    BytesOf(PowWords(p, finalState, w))
  }

  function PowValue(p: Prims, finalState: Word, pph: Digest, daa: nat): Digest {
    PowFold(p, finalState, FoldWords(pph, daa))
  }

  /** What the challenges commit to. */
  function Transcript(pph: Digest, nonce: Word, traceRoot: Digest, powValue: Digest): Bytes {
    pph + LeBytes(nonce) + traceRoot + powValue
  }

  /** The 64-bit number challenge `j` is reduced from; the folds are salted, this hash never is. */
  function Draw(p: Prims, pph: Digest, nonce: Word, traceRoot: Digest, powValue: Digest, j: Word): Word {
    var seed: Bytes := p.blake(Transcript(pph, nonce, traceRoot, powValue));
    WordAt(p.blake(seed + LeBytes(j)), 0)
  }

  // ---------- words as numbers ----------

  function ToNumber(x: Word): nat {
    LE.Value(LeBytes(x))
  }

  /** The word of a number modulo 2^64. */
  function ToWord(n: nat): Word {
    WordOf(LE.LowBytes(n, 8))
  }

  /** Words and the numbers below 2^64 are the same things. */
  lemma WordsAreNumbers(x: Word, n: nat)
    ensures ToNumber(x) < 0x1_0000_0000_0000_0000 && ToWord(ToNumber(x)) == x
    ensures n < 0x1_0000_0000_0000_0000 ==> ToNumber(ToWord(n)) == n
  {
    LE.Scale8();
    LE.ValueBound(LeBytes(x));
    LE.LowBytesSpell(ToNumber(x), 8);
    LE.ValueInjective(LE.LowBytes(ToNumber(x), 8), LeBytes(x));
    WordOfLeBytes(x);
    LeBytesOfWord(LE.LowBytes(n, 8));
    if n < 0x1_0000_0000_0000_0000 {
      LE.LowBytesSpell(n, 8);
    }
  }

  /** The rules of one block: everything the walk, the prover and the verifier take from its header. */
  function Rules(p: Prims, pph: Digest, daa: nat, timestamp: Word): Pom.Rules {
    Pom.Rules(
      p.blake,
      LeBytes,
      (state: Word, chunk: Digest) => Transition(p, state, WordsOf(chunk)),
      (state: Word) => ToNumber(state),
      (nonce: nat) => BlockSeed(p, pph, daa, timestamp, ToWord(nonce)),
      (state: Word) => PowValue(p, state, pph, daa),
      (nonce: nat, traceRoot: Digest, powValue: Digest, j: nat) =>
        ToNumber(Draw(p, pph, ToWord(nonce), traceRoot, powValue, ToWord(j))))
  }

  /** Distinct states are distinct trace-leaf preimages under the real rules, and none is as long as an inner node's. */
  lemma LeafBytesInjective(p: Prims, pph: Digest, daa: nat, timestamp: Word)
    ensures Pom.Injective(Rules(p, pph, daa, timestamp).leafBytes)
    ensures Binding.LeavesAreNoNodes(Rules(p, pph, daa, timestamp))
  {
    forall a: Word, b: Word | LeBytes(a) == LeBytes(b)
      ensures a == b
    {
      WordOfLeBytes(a);
      WordOfLeBytes(b);
    }
  }

  // ---------- the salted header handed to the GPU ----------

  /** `salt_pph_bytes_for_daa`: the salt xored into the hash bytes in place, from the H3 fork on. */
  method SaltPphBytes(pph: array<bv8>, daa: nat, salt: seq<Word>)
    requires pph.Length == 32 && |salt| == 4
    modifies pph
    ensures pph[..] == (if daa >= H3_DAA then XorBytes(old(pph[..]), BytesOf(salt)) else old(pph[..]))
  {
    if daa < H3_DAA {
      return;
    }
    ghost var before, pad := pph[..], BytesOf(salt);
    for i := 0 to 4
      invariant forall m :: 0 <= m < 32 ==> pph[m] == if m < 8 * i then before[m] ^ pad[m] else before[m]
    {
      BlockOfBytes(salt, i);
      XorInto(pph, i * 8, LeBytes(salt[i]), pad);
    }
  }

  /** Xors one salt word into its eight bytes. */
  method XorInto(pph: array<bv8>, at: nat, sb: Bytes, ghost pad: Bytes)
    requires pph.Length == 32 == |pad| && |sb| == 8 && at + 8 <= 32 && pad[at..at + 8] == sb
    modifies pph
    ensures forall m :: 0 <= m < 32 ==> pph[m] == if at <= m < at + 8 then old(pph[m]) ^ pad[m] else old(pph[m])
  {
    for j := 0 to 8
      invariant forall m :: 0 <= m < 32 ==> pph[m] == if at <= m < at + j then old(pph[m]) ^ pad[m] else old(pph[m])
    {
      assert sb[j] == pad[at..at + 8][j] == pad[at + j];
      pph[at + j] := pph[at + j] ^ sb[j];
    }
  }

  lemma XorBlock(a: Digest, b: Digest, i: nat)
    requires i < 4
    ensures WordAt(XorBytes(a, b), i) == WordAt(a, i) ^ WordAt(b, i)
  {
    WordOfXor(a[8 * i..8 * i + 8], b[8 * i..8 * i + 8]);
    assert XorBytes(a, b)[8 * i..8 * i + 8] == XorBytes(a[8 * i..8 * i + 8], b[8 * i..8 * i + 8]);
  }

  lemma SaltedWord(c: Digest, salt: seq<Word>, i: nat)
    requires |salt| == 4 && i < 4
    ensures WordAt(XorBytes(c, BytesOf(salt)), i) == WordAt(c, i) ^ salt[i]
  {
    XorBlock(c, BytesOf(salt), i);
    BlockOfBytes(salt, i);
    WordOfLeBytes(salt[i]);
  }

  lemma SaltedWords(c: Digest, salt: seq<Word>)
    requires |salt| == 4
    ensures WordsOf(XorBytes(c, BytesOf(salt))) == XorWords(WordsOf(c), salt)
  {
    forall i: nat | i < 4
      ensures WordAt(XorBytes(c, BytesOf(salt)), i) == WordAt(c, i) ^ salt[i]
    {
      SaltedWord(c, salt, i);
    }
  }

  /**
   A kernel that knows nothing of the fork and folds the salted bytes computes what the host folds over the
   unsalted header, for the seed and for the pow value.
   */
  lemma SaltedBytesAreSaltedWords(p: Prims, pph: Digest, salted: Digest, daa: nat, timestamp: Word, nonce: Word, finalState: Word)
    requires salted == if daa >= H3_DAA then XorBytes(pph, BytesOf(H3_SALT)) else pph
    ensures BlockSeed(p, salted, 0, timestamp, nonce) == BlockSeed(p, pph, daa, timestamp, nonce)
    ensures PowValue(p, finalState, salted, 0) == PowValue(p, finalState, pph, daa)
  {
    SaltedWords(pph, H3_SALT);
    SameWordsSameFolds(p, FoldWords(salted, 0), FoldWords(pph, daa), timestamp, nonce, finalState);
  }

  lemma SameWordsSameFolds(p: Prims, a: seq<Word>, b: seq<Word>, timestamp: Word, nonce: Word, finalState: Word)
    requires a == b && |a| == 4
    ensures SeedFold(p, a, timestamp, nonce) == SeedFold(p, b, timestamp, nonce) && PowFold(p, finalState, a) == PowFold(p, finalState, b)
  {
  }
}
