/**
 Proof-of-Model prover and verifier of `src/pom.rs`: a data-dependent walk over the weight chunks, a committed
 trace, and Fiat-Shamir openings, for any rules; the rules of a real block are `Folds.Rules`.
 */
module Pom {
  import opened Digests
  import opened Options
  import opened Words
  import opened Numbers
  import opened DenseTree
  import opened Chunks
  import opened WI = WeightIndex
  import LE = LittleEndian

  /**
   What a block header fixes: the hash, the bytes of a state that are hashed into a trace leaf, one walk step over a
   chunk, the number a chunk index is reduced from, the walk seed of a nonce, the pow value of a final state, and
   the number a challenge is reduced from (nonce, trace root, pow value, challenge position).
   */
  datatype Rules = Rules(
    blake: Hash, leafBytes: Word -> Bytes, step: (Word, Digest) -> Word, number: Word -> nat,
    seed: nat -> Word, pow: Word -> Digest, draw: (nat, Digest, Digest, nat) -> nat)
  {
    function Pair(): (Digest, Digest) -> Digest {
      WI.Pair(blake)
    }
  }

  ghost predicate Injective(f: Word -> Bytes) {
    forall a, b :: f(a) == f(b) ==> a == b
  }

  datatype Opening = Opening(
    stateBefore: Word, chunk: Digest, weightPath: seq<Digest>, tracePathBefore: seq<Digest>, tracePathAfter: seq<Digest>)

  datatype PomProof = PomProof(
    tier: nat, traceRoot: Digest, powValue: Digest, finalState: Word,
    initialTracePath: seq<Digest>, finalTracePath: seq<Digest>, openings: seq<Opening>)

  const NONCE_MAX: nat := 0xffff_ffff_ffff_ffff

  function Remainder(a: nat, n: nat): (r: nat)
    requires n > 0
    ensures r < n
  {
    a % n
  }

  function TraceLeaf(r: Rules, state: Word): Digest {
    r.blake(r.leafBytes(state))
  }

  /** `state % n_chunks`. */
  function ChunkIndex(r: Rules, state: Word, n: nat): (i: nat)
    requires n > 0
    ensures i < n
  {
    Remainder(r.number(state), n)
  }

  /** The chunk a state points to is the remainder of its number by the chunk count. */
  lemma IndexIs(r: Rules, state: Word, n: nat, q: nat, c: nat)
    requires c < n && r.number(state) == q * n + c
    ensures ChunkIndex(r, state, n) == c
  {
    RemainderIs(r.number(state), n, q, c);
  }

  lemma RemainderIs(a: nat, n: nat, q: nat, c: nat)
    requires c < n && a == q * n + c
    ensures Remainder(a, n) == c
  {
    var p := a / n;
    DivMod(a, n);
    if p < q {
      MoreMultiples(p, q, n);
    } else if q < p {
      MoreMultiples(q, p, n);
    }
  }

  lemma MoreMultiples(p: nat, q: nat, n: nat)
    requires p < q
    ensures p * n + n <= q * n
  {
    var k: nat := q - p - 1;
    assert q * n == p * n + n + k * n;
  }

  /** The Fiat-Shamir challenges: `t` step indices below `k`. */
  function Challenge(r: Rules, nonce: nat, traceRoot: Digest, powValue: Digest, k: nat, j: nat): (c: nat)
    requires k > 0
    ensures c < k
  {
    Remainder(r.draw(nonce, traceRoot, powValue, j), k)
  }

  function Challenges(r: Rules, nonce: nat, traceRoot: Digest, powValue: Digest, t: nat, k: nat): (cs: seq<nat>)
    requires t > 0 ==> k > 0
    ensures |cs| == t && forall j :: 0 <= j < t ==> 0 <= cs[j] < k && cs[j] == Challenge(r, nonce, traceRoot, powValue, k, j)
  {
    seq(t, j requires 0 <= j < t => Challenge(r, nonce, traceRoot, powValue, k, j))
  }

  /** Opening `j` is of the step that draw `j` is congruent to. */
  lemma DrawnStep(r: Rules, nonce: nat, traceRoot: Digest, powValue: Digest, t: nat, k: nat, j: nat, q: nat, c: nat)
    requires j < t && c < k && r.draw(nonce, traceRoot, powValue, j) == q * k + c
    ensures Challenges(r, nonce, traceRoot, powValue, t, k)[j] == c
  {
    RemainderIs(r.draw(nonce, traceRoot, powValue, j), k, q, c);
  }

  // ---------- the walk ----------

  /** State after `i` steps of the walk over the canonical chunks. */
  function State(r: Rules, chunks: seq<Digest>, seed: Word, i: nat): Word
    requires |chunks| > 0
  {
    if i == 0 then seed
    else
      var s := State(r, chunks, seed, i - 1);
      r.step(s, chunks[ChunkIndex(r, s, |chunks|)])
  }

  /** Every step of the walk reads the chunk its state points to. */
  lemma WalkReads(r: Rules, chunks: seq<Digest>, seed: Word, i: nat, q: nat, c: nat)
    requires c < |chunks| && r.number(State(r, chunks, seed, i)) == q * |chunks| + c
    ensures State(r, chunks, seed, 0) == seed
    ensures State(r, chunks, seed, i + 1) == r.step(State(r, chunks, seed, i), chunks[c])
  {
    IndexIs(r, State(r, chunks, seed, i), |chunks|, q, c);
  }

  method WalkFinal(r: Rules, idx: Index, ghost chunks: seq<Digest>, seed: Word, k: nat) returns (state: Word)
    requires Valid(idx, r.blake, chunks)
    ensures state == State(r, chunks, seed, k)
  {
    state := seed;
    var off := ChunkIndex(r, state, idx.nChunks);
    for i := 0 to k
      invariant state == State(r, chunks, seed, i) && off == ChunkIndex(r, state, |chunks|)
    {
      state := r.step(state, ReadChunk(idx, chunks, off));
      off := ChunkIndex(r, state, idx.nChunks);
    }
  }

  function TraceLeaves(r: Rules, trace: seq<Word>): (leaves: seq<Digest>)
    ensures |leaves| == |trace|
    ensures forall i :: 0 <= i < |trace| ==> leaves[i] == TraceLeaf(r, trace[i])
  {
    seq(|trace|, i requires 0 <= i < |trace| => TraceLeaf(r, trace[i]))
  }

  function Trace(r: Rules, chunks: seq<Digest>, seed: Word, k: nat): (trace: seq<Word>)
    requires |chunks| > 0
    ensures |trace| == k + 1
    ensures forall i :: 0 <= i <= k ==> trace[i] == State(r, chunks, seed, i)
  {
    seq(k + 1, i requires 0 <= i <= k => State(r, chunks, seed, i))
  }

  lemma TraceStep(r: Rules, chunks: seq<Digest>, seed: Word, i: nat)
    requires |chunks| > 0
    ensures Trace(r, chunks, seed, i + 1) == Trace(r, chunks, seed, i) + [State(r, chunks, seed, i + 1)]
  {
  }

  // ---------- prover ----------

  function HonestOpening(r: Rules, chunks: seq<Digest>, seed: Word, k: nat, i: nat): Opening
    requires |chunks| > 0 && i < k
  {
    var leaves := TraceLeaves(r, Trace(r, chunks, seed, k));
    var s := State(r, chunks, seed, i);
    var off := ChunkIndex(r, s, |chunks|);
    Opening(s, chunks[off], Proof(r.Pair(), Leaves(r.blake, chunks), off),
            Proof(r.Pair(), leaves, i), Proof(r.Pair(), leaves, i + 1))
  }

  /** The proof of the walk from `seed`. */
  function HonestProof(r: Rules, chunks: seq<Digest>, tier: nat, nonce: nat, seed: Word, k: nat, t: nat)
    : PomProof
    requires |chunks| > 0 && (t > 0 ==> k > 0)
  {
    var leaves := TraceLeaves(r, Trace(r, chunks, seed, k));
    var root := Root(r.Pair(), leaves);
    var final := State(r, chunks, seed, k);
    var pow := r.pow(final);
    var cs := Challenges(r, nonce, root, pow, t, k);
    PomProof(tier, root, pow, final, Proof(r.Pair(), leaves, 0), Proof(r.Pair(), leaves, k),
             seq(t, j requires 0 <= j < t => HonestOpening(r, chunks, seed, k, cs[j])))
  }

  method RecordTrace(r: Rules, idx: Index, ghost chunks: seq<Digest>, seed: Word, k: nat) returns (trace: seq<Word>)
    requires Valid(idx, r.blake, chunks)
    ensures trace == Trace(r, chunks, seed, k)
  {
    var state := seed;
    trace := [state];
    var off := ChunkIndex(r, state, idx.nChunks);
    for i := 0 to k
      invariant trace == Trace(r, chunks, seed, i)
      invariant state == State(r, chunks, seed, i) && off == ChunkIndex(r, state, |chunks|)
    {
      state := r.step(state, ReadChunk(idx, chunks, off));
      TraceStep(r, chunks, seed, i);
      trace := trace + [state];
      off := ChunkIndex(r, state, idx.nChunks);
    }
  }

  /** Opens step `i`: the state before, its chunk and path, and the two trace paths. */
  method OpenStep(r: Rules, idx: Index, ghost chunks: seq<Digest>, ghost seed: Word, k: nat, trace: seq<Word>, leaves: seq<Digest>, i: nat)
    returns (op: Opening)
    requires Valid(idx, r.blake, chunks) && i < k
    requires trace == Trace(r, chunks, seed, k) && leaves == TraceLeaves(r, trace)
    ensures op == HonestOpening(r, chunks, seed, k, i)
  {
    var sb := trace[i];
    var off := ChunkIndex(r, sb, idx.nChunks);
    var chunk := ReadChunk(idx, chunks, off);
    var weightPath := MerklePath(idx, r.blake, chunks, off);
    var before := MerkleProof(r.Pair(), leaves, i);
    var after := MerkleProof(r.Pair(), leaves, i + 1);
    op := Opening(sb, chunk, weightPath, before, after);
  }

  /** Opens every selected step, in order. */
  method OpenAll(r: Rules, idx: Index, ghost chunks: seq<Digest>, ghost seed: Word, k: nat, trace: seq<Word>, leaves: seq<Digest>, chs: seq<nat>)
    returns (openings: seq<Opening>)
    requires Valid(idx, r.blake, chunks) && forall j :: 0 <= j < |chs| ==> chs[j] < k
    requires trace == Trace(r, chunks, seed, k) && leaves == TraceLeaves(r, trace)
    ensures |openings| == |chs| && forall j :: 0 <= j < |chs| ==> openings[j] == HonestOpening(r, chunks, seed, k, chs[j])
  {
    openings := [];
    for j := 0 to |chs|
      invariant |openings| == j
      invariant forall i :: 0 <= i < j ==> openings[i] == HonestOpening(r, chunks, seed, k, chs[i])
    {
      var op := OpenStep(r, idx, chunks, seed, k, trace, leaves, chs[j]);
      openings := openings + [op];
    }
  }

  /** Re-walks a nonce recording the trace, commits it, and opens the selected steps. */
  method BuildProof(r: Rules, idx: Index, ghost chunks: seq<Digest>, tier: nat, nonce: nat, seed: Word, k: nat, t: nat)
    returns (proof: PomProof)
    requires Valid(idx, r.blake, chunks) && (t > 0 ==> k > 0)
    ensures proof == HonestProof(r, chunks, tier, nonce, seed, k, t)
  {
    var trace := RecordTrace(r, idx, chunks, seed, k);
    var leaves := TraceLeaves(r, trace);
    var traceRoot := MerkleRoot(r.Pair(), leaves);
    var finalState := trace[k];
    var powValue := r.pow(finalState);
    var chs := Challenges(r, nonce, traceRoot, powValue, t, k);
    var openings := OpenAll(r, idx, chunks, seed, k, trace, leaves, chs);
    var initial := MerkleProof(r.Pair(), leaves, 0);
    var final := MerkleProof(r.Pair(), leaves, k);
    proof := PomProof(tier, traceRoot, powValue, finalState, initial, final, openings);
  }

  // ---------- verifier ----------

  /** The three checks of one opening against challenge `i`. */
  predicate OpeningAccepted(r: Rules, op: Opening, i: nat, traceRoot: Digest, n: nat, root: Digest)
    requires n > 0
  {
    && Climb(r.Pair(), TraceLeaf(r, op.stateBefore), i, op.tracePathBefore) == traceRoot
    && Climb(r.Pair(), r.blake(op.chunk), ChunkIndex(r, op.stateBefore, n), op.weightPath) == root
    && Climb(r.Pair(), TraceLeaf(r, StateAfter(r, op)), i + 1, op.tracePathAfter) == traceRoot
  }

  function StateAfter(r: Rules, op: Opening): Word {
    r.step(op.stateBefore, op.chunk)
  }

  predicate Accepted(r: Rules, nonce: nat, seed: Word, proof: PomProof, n: nat, k: nat, t: nat, root: Digest, target: Digest)
    requires n > 0 && (t > 0 ==> k > 0)
  {
    && |proof.openings| == t
    && r.pow(proof.finalState) == proof.powValue
    && LE.Value(proof.powValue) <= LE.Value(target)
    && Climb(r.Pair(), TraceLeaf(r, seed), 0, proof.initialTracePath) == proof.traceRoot
    && Climb(r.Pair(), TraceLeaf(r, proof.finalState), k, proof.finalTracePath) == proof.traceRoot
    && var cs := Challenges(r, nonce, proof.traceRoot, proof.powValue, t, k);
       forall j :: 0 <= j < t ==> OpeningAccepted(r, proof.openings[j], cs[j], proof.traceRoot, n, root)
  }

  method VerifyOpening(r: Rules, op: Opening, i: nat, traceRoot: Digest, n: nat, root: Digest) returns (ok: bool)
    requires n > 0
    ensures ok <==> OpeningAccepted(r, op, i, traceRoot, n, root)
  {
    ok := VerifyMerkle(r.Pair(), TraceLeaf(r, op.stateBefore), i, op.tracePathBefore, traceRoot);
    if !ok {
      return;
    }
    ok := VerifyMerkle(r.Pair(), r.blake(op.chunk), ChunkIndex(r, op.stateBefore, n), op.weightPath, root);
    if !ok {
      return;
    }
    ok := VerifyMerkle(r.Pair(), TraceLeaf(r, StateAfter(r, op)), i + 1, op.tracePathAfter, traceRoot);
  }

  method VerifyProof(r: Rules, nonce: nat, seed: Word, proof: PomProof, n: nat, k: nat, t: nat, root: Digest, target: Digest)
    returns (ok: bool)
    requires n > 0 && (t > 0 ==> k > 0)
    ensures ok <==> Accepted(r, nonce, seed, proof, n, k, t, root, target)
  {
    if |proof.openings| != t || r.pow(proof.finalState) != proof.powValue {
      return false;
    }
    ok := LE.LeLeq(proof.powValue, target);
    if !ok {
      return;
    }
    ok := VerifyMerkle(r.Pair(), TraceLeaf(r, seed), 0, proof.initialTracePath, proof.traceRoot);
    if !ok {
      return;
    }
    ok := VerifyMerkle(r.Pair(), TraceLeaf(r, proof.finalState), k, proof.finalTracePath, proof.traceRoot);
    if !ok {
      return;
    }
    var cs := Challenges(r, nonce, proof.traceRoot, proof.powValue, t, k);
    for j := 0 to t
      invariant forall i :: 0 <= i < j ==> OpeningAccepted(r, proof.openings[i], cs[i], proof.traceRoot, n, root)
    {
      ok := VerifyOpening(r, proof.openings[j], cs[j], proof.traceRoot, n, root);
      if !ok {
        return;
      }
    }
    ok := true;
  }

  // ---------- completeness ----------

  lemma HonestOpeningAccepted(r: Rules, chunks: seq<Digest>, seed: Word, k: nat, i: nat)
    requires |chunks| > 0 && i < k
    ensures OpeningAccepted(r, HonestOpening(r, chunks, seed, k, i), i,
                            Root(r.Pair(), TraceLeaves(r, Trace(r, chunks, seed, k))), |chunks|,
                            Root(r.Pair(), Leaves(r.blake, chunks)))
  {
    var trace := Trace(r, chunks, seed, k);
    var leaves := TraceLeaves(r, trace);
    ProofClimbs(r.Pair(), leaves, i);
    ProofClimbs(r.Pair(), leaves, i + 1);
    ProofClimbs(r.Pair(), Leaves(r.blake, chunks), ChunkIndex(r, trace[i], |chunks|));
    assert trace[i + 1] == StateAfter(r, HonestOpening(r, chunks, seed, k, i));
  }

  /** Whoever walked and met the target is believed: the honest proof passes every check against the canonical root. */
  lemma Completeness(r: Rules, chunks: seq<Digest>, tier: nat, nonce: nat, seed: Word, k: nat, t: nat, target: Digest)
    requires |chunks| > 0 && (t > 0 ==> k > 0)
    requires LE.Value(r.pow(State(r, chunks, seed, k))) <= LE.Value(target)
    ensures Accepted(r, nonce, seed, HonestProof(r, chunks, tier, nonce, seed, k, t),
                     |chunks|, k, t, Root(r.Pair(), Leaves(r.blake, chunks)), target)
  {
    var leaves := TraceLeaves(r, Trace(r, chunks, seed, k));
    var root := Root(r.Pair(), leaves);
    ProofClimbs(r.Pair(), leaves, 0);
    ProofClimbs(r.Pair(), leaves, k);
    var pow := r.pow(State(r, chunks, seed, k));
    var cs := Challenges(r, nonce, root, pow, t, k);
    forall j | 0 <= j < t
      ensures OpeningAccepted(r, HonestOpening(r, chunks, seed, k, cs[j]), cs[j], root, |chunks|,
                              Root(r.Pair(), Leaves(r.blake, chunks)))
    {
      HonestOpeningAccepted(r, chunks, seed, k, cs[j]);
    }
  }

  // ---------- mining ----------

  ghost predicate Wins(r: Rules, chunks: seq<Digest>, target: Digest, k: nat, nonce: nat)
    requires |chunks| > 0
  {
    var seed := r.seed(nonce);
    LE.Value(r.pow(State(r, chunks, seed, k))) <= LE.Value(target)
  }

  function SaturatingAdd(a: nat, b: nat): (r: nat)
    ensures r <= NONCE_MAX
  {
    if a + b > NONCE_MAX then NONCE_MAX else a + b
  }

  /**
   Searches `start .. start + max`, saturating, and proves the first winner. The proof is accepted against the index
   root when that is the canonical root, which a built index has from 33 chunks on (`WeightIndex.BuiltRootIsCanonicalIff`).
   */
  method MinePom(r: Rules, idx: Index, ghost chunks: seq<Digest>, tier: nat, target: Digest,
                 k: nat, t: nat, start: nat, max: nat)
    returns (found: Option<(nat, PomProof)>)
    requires Valid(idx, r.blake, chunks) && (t > 0 ==> k > 0) && start <= NONCE_MAX && max <= NONCE_MAX
    ensures found.None? ==> forall m :: start <= m < start + max && m < NONCE_MAX ==> !Wins(r, chunks, target, k, m)
    ensures found.Some? ==>
      var (nonce, proof) := found.value;
      && start <= nonce < start + max && nonce < NONCE_MAX && Wins(r, chunks, target, k, nonce)
      && (forall m :: start <= m < nonce ==> !Wins(r, chunks, target, k, m))
      && (idx.root == Root(r.Pair(), Leaves(r.blake, chunks)) ==>
            Accepted(r, nonce, r.seed(nonce), proof, idx.nChunks, k, t, idx.root, target))
  {
    var nonce, end := start, SaturatingAdd(start, max);
    while nonce < end
      invariant start <= nonce
      invariant forall m :: start <= m < nonce ==> !Wins(r, chunks, target, k, m)
    {
      var seed := r.seed(nonce);
      var finalState := WalkFinal(r, idx, chunks, seed, k);
      var win := LE.LeLeq(r.pow(finalState), target);
      if win {
        var proof := BuildProof(r, idx, chunks, tier, nonce, seed, k, t);
        Completeness(r, chunks, tier, nonce, seed, k, t, target);
        return Some((nonce, proof));
      }
      nonce := nonce + 1;
    }
    return None;
  }

  /**
   From the file to the block: a model of more than 32 chunks is indexed, and mining over that index returns the least
   winner with a proof accepted against the index's own root, or nothing when no nonce wins.
   */
  method BuildThenMine(r: Rules, gguf: Bytes, tensors: seq<Tensor>, tier: nat, target: Digest, k: nat, t: nat, start: nat, max: nat)
    returns (idx: Option<Index>, found: Option<(nat, PomProof)>)
    requires InFile(gguf, tensors) && (t > 0 ==> k > 0) && start <= NONCE_MAX && max <= NONCE_MAX
    ensures idx.None? <==> |Canon(gguf, tensors)| == 0
    ensures idx.Some? && found.None? ==>
      forall m :: start <= m < start + max && m < NONCE_MAX ==> !Wins(r, Canon(gguf, tensors), target, k, m)
    ensures idx.Some? && found.Some? ==>
      var (nonce, proof) := found.value;
      && start <= nonce < start + max && nonce < NONCE_MAX && Wins(r, Canon(gguf, tensors), target, k, nonce)
      && (forall m :: start <= m < nonce ==> !Wins(r, Canon(gguf, tensors), target, k, m))
      && (idx.value.nChunks > 32 ==>
            Accepted(r, nonce, r.seed(nonce), proof, idx.value.nChunks, k, t, idx.value.root, target))
  {
    found := None;
    idx := BuildFromGguf(r.blake, gguf, tensors);
    if idx.Some? {
      found := MinePom(r, idx.value, Canon(gguf, tensors), tier, target, k, t, start, max);
      if idx.value.nChunks > 32 {
        BuiltRootIsCanonicalIff(idx.value.nChunks);
      }
    }
  }
}
