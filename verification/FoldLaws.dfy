/**
 What a walk, a seed, a pow value and a challenge of `src/pom.rs` depend on: for a mixer that never maps two words to
 one, no word they read is without effect, and no input of the challenge hash is ignored.
 */
module FoldLaws {
  import opened Digests
  import opened Words
  import opened Folds
  import opened MixChains
  import Pom

  // ---------- exclusive or of words ----------

  lemma XorCancels()
    ensures Cancels(Xor())
  {
    forall x, y, z
      ensures CancelsAt(Xor(), x, y, z)
    {
      XorUndoes(x, z);
      XorUndoes(y, z);
    }
  }

  lemma XorUndoes(x: Word, z: Word)
    ensures (x ^ z) ^ z == x && (z ^ x) ^ z == x
  {
  }

  // ---------- the walk ----------

  /** A chunk that differs in one word, or another state, leads to another state. */
  lemma StepSees(p: Prims, s: Word, t: Word, w: seq<Word>, i: nat, x: Word)
    requires OneToOne(p.mix) && |w| == 4 && i < 4
    ensures Transition(p, s, w) == Transition(p, s, w[i := x]) ==> w[i] == x
    ensures Transition(p, s, w) == Transition(p, t, w) ==> s == t
  {
    XorCancels();
    if Sum(Xor(), s, w) == Sum(Xor(), s, w[i := x]) {
      SumSees(Xor(), s, w, i, x);
    }
    if Sum(Xor(), s, w) == Sum(Xor(), t, w) {
      SumSeesStart(Xor(), s, t, w);
    }
  }

  // ---------- the seed ----------

  /** Headers and nonces that differ in one word never share a seed: the nonce, the time, any word of the hash. */
  lemma SeedSees(p: Prims, w: seq<Word>, timestamp: Word, nonce: Word, i: nat, x: Word)
    requires OneToOne(p.mix) && |w| == 4 && i < 4
    ensures SeedFold(p, w, timestamp, nonce) == SeedFold(p, w, timestamp, x) ==> nonce == x
    ensures SeedFold(p, w, timestamp, nonce) == SeedFold(p, w, x, nonce) ==> timestamp == x
    ensures SeedFold(p, w, timestamp, nonce) == SeedFold(p, w[i := x], timestamp, nonce) ==> w[i] == x
  {
    var ws := [nonce, timestamp] + w;
    assert ws[0 := x] == [x, timestamp] + w && ws[1 := x] == [nonce, x] + w && ws[i + 2 := x] == [nonce, timestamp] + w[i := x];
    XorCancels();
    SeedSeesAt(p, ws, 0, x);
    SeedSeesAt(p, ws, 1, x);
    SeedSeesAt(p, ws, i + 2, x);
  }

  lemma SeedSeesAt(p: Prims, ws: seq<Word>, i: nat, x: Word)
    requires OneToOne(p.mix) && Cancels(Xor()) && i < |ws|
    ensures Chain(Xor(), p.mix, SEED_START, ws) == Chain(Xor(), p.mix, SEED_START, ws[i := x]) ==> ws[i] == x
  {
    if Chain(Xor(), p.mix, SEED_START, ws) == Chain(Xor(), p.mix, SEED_START, ws[i := x]) {
      ChainSees(Xor(), p.mix, SEED_START, ws, i, x);
    }
  }

  /** The order of the rounds: the nonce, the time, then the four words of the header hash, salted from the fork on. */
  lemma SeedRounds(p: Prims, pph: Digest, daa: nat, timestamp: Word, nonce: nat)
    ensures
      var (x, w) := (Xor(), if daa >= 43_450_000 then XorWords(WordsOf(pph), H3_SALT) else WordsOf(pph));
      var s := p.mix(x(p.mix(x(0x4B65727978531, ToWord(nonce))), timestamp));
      Rules(p, pph, daa, timestamp).seed(nonce) == p.mix(x(p.mix(x(p.mix(x(p.mix(x(s, w[0])), w[1])), w[2])), w[3]))
  {
    var (op, w) := (Xor(), FoldWords(pph, daa));
    var ws := [ToWord(nonce), timestamp] + w;
    ChainRound(op, p.mix, SEED_START, ws, 0);
    ChainRound(op, p.mix, SEED_START, ws, 1);
    ChainRound(op, p.mix, SEED_START, ws, 2);
    ChainRound(op, p.mix, SEED_START, ws, 3);
    ChainRound(op, p.mix, SEED_START, ws, 4);
    ChainRound(op, p.mix, SEED_START, ws, 5);
    assert ws[..0] == [] && ws[..6] == ws;
  }

  // ---------- the pow value ----------

  lemma RoundSees(p: Prims, o: Word, o': Word, w: Word, w': Word, salt: Word)
    requires OneToOne(p.mix)
    ensures PowRound(p, o, w, salt) == PowRound(p, o', w, salt) ==> o == o'
    ensures PowRound(p, o, w, salt) == PowRound(p, o, w', salt) ==> w == w'
  {
    XorCancels();
    assert [w, salt][0 := w'] == [w', salt];
    if Sum(Xor(), o, [w, salt]) == Sum(Xor(), o', [w, salt]) {
      SumSeesStart(Xor(), o, o', [w, salt]);
    }
    if Sum(Xor(), o, [w, salt]) == Sum(Xor(), o, [w', salt]) {
      SumSees(Xor(), o, [w, salt], 0, w');
    }
  }

  lemma SamePowWords(p: Prims, f: Word, g: Word, w: seq<Word>, v: seq<Word>)
    requires |w| == |v| == 4 && PowFold(p, f, w) == PowFold(p, g, v)
    ensures PowWords(p, f, w) == PowWords(p, g, v)
  {
    WordsOfBytes(PowWords(p, f, w));
    WordsOfBytes(PowWords(p, g, v));
  }

  /** Final states and headers that differ in one word never share a pow value. */
  lemma PowSees(p: Prims, f: Word, g: Word, w: seq<Word>, i: nat, x: Word)
    requires OneToOne(p.mix) && |w| == 4 && i < 4
    ensures PowFold(p, f, w) == PowFold(p, g, w) ==> f == g
    ensures PowFold(p, f, w) == PowFold(p, f, w[i := x]) ==> w[i] == x
  {
    if PowFold(p, f, w) == PowFold(p, g, w) {
      SamePowWords(p, f, g, w, w);
      FirstWord(p, f, g, w);
    }
    if PowFold(p, f, w) == PowFold(p, f, w[i := x]) {
      SamePowWords(p, f, f, w, w[i := x]);
      WordSeen(p, f, w, i, x);
    }
  }

  lemma FirstWord(p: Prims, f: Word, g: Word, w: seq<Word>)
    requires OneToOne(p.mix) && |w| == 4 && PowWords(p, f, w)[0] == PowWords(p, g, w)[0]
    ensures f == g
  {
    RoundSees(p, f, g, w[0], w[0], 0x9E3779B97F4A7C15);
  }

  lemma WordSeen(p: Prims, f: Word, w: seq<Word>, i: nat, x: Word)
    requires OneToOne(p.mix) && |w| == 4 && i < 4 && PowWords(p, f, w) == PowWords(p, f, w[i := x])
    ensures w[i] == x
  {
    var o := PowWords(p, f, w);
    RoundSees(p, f, f, w[0], x, 0x9E3779B97F4A7C15);
    RoundSees(p, o[0], o[0], w[1], x, 0xC2B2AE3D27D4EB4F);
    RoundSees(p, o[1], o[1], w[2], x, 0x165667B19E3779F9);
    RoundSees(p, o[2], o[2], w[3], x, 0xD6E8FEB86659FD93);
  }

  // ---------- the challenges ----------

  lemma TranscriptBinds(pph: Digest, nonce: Word, root: Digest, pow: Digest, pph': Digest, nonce': Word, root': Digest, pow': Digest)
    requires Transcript(pph, nonce, root, pow) == Transcript(pph', nonce', root', pow')
    ensures pph == pph' && nonce == nonce' && root == root' && pow == pow'
  {
    TranscriptParts(pph, nonce, root, pow);
    TranscriptParts(pph', nonce', root', pow');
    WordOfLeBytes(nonce);
    WordOfLeBytes(nonce');
  }

  lemma TranscriptParts(pph: Digest, nonce: Word, root: Digest, pow: Digest)
    ensures var t := Transcript(pph, nonce, root, pow);
            |t| == 104 && t[..32] == pph && t[32..40] == LeBytes(nonce) && t[40..72] == root && t[72..] == pow
  {
  }

  function Filled(b: bv8): Digest {
    seq(32, _ => b)
  }

  /** A hash that tells one transcript and one challenge position from all others. */
  function Telling(transcript: Bytes, j: Word): Hash {
    (b: Bytes) => if b == transcript then Filled(1) else if b == Filled(1) + LeBytes(j) then Filled(2) else Filled(0)
  }

  /** No input of a challenge is ignored: where header hash, nonce, trace root, pow value or position differ, some hash draws differently. */
  lemma DrawSees(mix: Word -> Word, pph: Digest, nonce: Word, root: Digest, pow: Digest, j: Word,
                 pph': Digest, nonce': Word, root': Digest, pow': Digest, j': Word)
    requires (pph, nonce, root, pow, j) != (pph', nonce', root', pow', j')
    ensures var p := Prims(Telling(Transcript(pph, nonce, root, pow), j), mix);
            Draw(p, pph, nonce, root, pow, j) != Draw(p, pph', nonce', root', pow', j')
  {
    var t, t' := Transcript(pph, nonce, root, pow), Transcript(pph', nonce', root', pow');
    TranscriptParts(pph, nonce, root, pow);
    TranscriptParts(pph', nonce', root', pow');
    var h := Telling(t, j);
    assert h(t) == Filled(1) && h(Filled(1) + LeBytes(j)) == Filled(2);
    FilledDiffer();
    if t == t' {
      TranscriptBinds(pph, nonce, root, pow, pph', nonce', root', pow');
      WordOfLeBytes(j);
      WordOfLeBytes(j');
      assert (Filled(1) + LeBytes(j))[32..] == LeBytes(j) && (Filled(1) + LeBytes(j'))[32..] == LeBytes(j');
      assert h(Filled(1) + LeBytes(j')) == Filled(0);
    } else {
      assert h(t') == Filled(0);
      assert (Filled(0) + LeBytes(j'))[0] == 0 && (Filled(1) + LeBytes(j))[0] == 1;
      assert h(Filled(0) + LeBytes(j')) == Filled(0);
    }
  }

  /** The draw in terms of its two buffers, of 104 and 40 bytes, and the first eight bytes of the last hash. */
  lemma DrawReads(p: Prims, pph: Digest, nonce: Word, root: Digest, pow: Digest, j: Word, fs: Bytes, buf: Bytes)
    requires |fs| == 104 && fs[..32] == pph && fs[32..40] == LeBytes(nonce) && fs[40..72] == root && fs[72..104] == pow
    requires |buf| == 40 && buf[..32] == p.blake(fs) && buf[32..] == LeBytes(j)
    ensures LeBytes(Draw(p, pph, nonce, root, pow, j)) == p.blake(buf)[..8]
  {
    assert fs == Transcript(pph, nonce, root, pow);
    assert buf == p.blake(fs) + LeBytes(j);
    LeBytesOfWord(p.blake(buf)[0..8]);
  }

  lemma FilledDiffer()
    ensures WordAt(Filled(2), 0) != WordAt(Filled(0), 0)
  {
    LeBytesOfWord(Filled(2)[0..8]);
    LeBytesOfWord(Filled(0)[0..8]);
    assert Filled(2)[0..8][0] == 2 && Filled(0)[0..8][0] == 0;
  }

  // ---------- the rules of a block ----------

  /** A state below the chunk count points to the chunk of that number, so every chunk is pointed to. */
  lemma StatePoints(p: Prims, pph: Digest, daa: nat, timestamp: Word, state: Word, n: nat, c: nat)
    requires c < n <= 0x1_0000_0000_0000_0000
    ensures ToNumber(state) < n ==> Pom.ChunkIndex(Rules(p, pph, daa, timestamp), state, n) == ToNumber(state)
    ensures Pom.ChunkIndex(Rules(p, pph, daa, timestamp), ToWord(c), n) == c
  {
    WordsAreNumbers(state, c);
    if ToNumber(state) < n {
      Pom.IndexIs(Rules(p, pph, daa, timestamp), state, n, 0, ToNumber(state));
    }
    Pom.IndexIs(Rules(p, pph, daa, timestamp), ToWord(c), n, 0, c);
  }

  /** Different nonces of a block never start the same walk. */
  lemma NoncesStartApart(p: Prims, pph: Digest, daa: nat, timestamp: Word, a: nat, b: nat)
    requires OneToOne(p.mix) && a < b < 0x1_0000_0000_0000_0000
    ensures Rules(p, pph, daa, timestamp).seed(a) != Rules(p, pph, daa, timestamp).seed(b)
  {
    WordsAreNumbers(0, a);
    WordsAreNumbers(0, b);
    SeedSees(p, FoldWords(pph, daa), timestamp, ToWord(a), 0, ToWord(b));
  }

  /** Over different chunks a state never steps to the same state when the chunks differ in one word only. */
  lemma ChunksStepApart(p: Prims, pph: Digest, daa: nat, timestamp: Word, s: Word, chunk: Digest, i: nat, x: Word)
    requires OneToOne(p.mix) && i < 4 && WordsOf(chunk)[i] != x
    ensures var r := Rules(p, pph, daa, timestamp); r.step(s, chunk) != r.step(s, BytesOf(WordsOf(chunk)[i := x]))
  {
    WordsOfBytes(WordsOf(chunk)[i := x]);
    StepSees(p, s, s, WordsOf(chunk), i, x);
  }
}
