/**
 What an accepted proof as a whole says about the walk. Every conclusion holds or a collision is computed from the
 proof and the honest tree. The verifier of `src/pom.rs` compares no path lengths; the results about the trace need
 all its paths to have one length, a test on the proof alone, and fail without it as soon as there is a step to walk.
 */
module Soundness {
  import opened Digests
  import opened Words
  import opened DenseTree
  import opened WeightIndex
  import opened Pom
  import opened Binding

  /** What a proof is checked against. */
  datatype Instance = Instance(
    r: Rules, chunks: seq<Digest>, nonce: nat, seed: Word, k: nat, t: nat, target: Digest)
  {
    ghost predicate WellPosed() {
      |chunks| > 0 && (t > 0 ==> k > 0)
    }

    /** The canonical root of the weights. */
    function Canonical(): Digest
      requires |chunks| > 0
    {
      Root(r.Pair(), Leaves(r.blake, chunks))
    }
  }

  predicate Accepts(x: Instance, proof: PomProof)
    requires x.WellPosed()
  {
    Accepted(x.r, x.nonce, x.seed, proof, |x.chunks|, x.k, x.t, x.Canonical(), x.target)
  }

  /** The steps a proof has to open. */
  function Drawn(x: Instance, proof: PomProof): (cs: seq<nat>)
    requires x.WellPosed()
    ensures |cs| == x.t && forall j :: 0 <= j < x.t ==> cs[j] < x.k
  {
    Challenges(x.r, x.nonce, proof.traceRoot, proof.powValue, x.t, x.k)
  }

  // ---------- claims ----------

  function First(x: Instance, proof: PomProof): Commit {
    Commit(0, x.seed, proof.initialTracePath)
  }

  function Final(x: Instance, proof: PomProof): Commit {
    Commit(x.k, proof.finalState, proof.finalTracePath)
  }

  function Before(cs: seq<nat>, proof: PomProof, j: nat): Commit
    requires j < |cs| == |proof.openings|
  {
    Commit(cs[j], proof.openings[j].stateBefore, proof.openings[j].tracePathBefore)
  }

  function After(r: Rules, cs: seq<nat>, proof: PomProof, j: nat): Commit
    requires j < |cs| == |proof.openings|
  {
    Commit(cs[j] + 1, StateAfter(r, proof.openings[j]), proof.openings[j].tracePathAfter)
  }

  /** The claims a proof makes: the seed, the final state, and before and after of each opened step. */
  ghost predicate Claims(x: Instance, proof: PomProof, c: Commit)
    requires x.WellPosed()
  {
    || c == First(x, proof)
    || c == Final(x, proof)
    || (|proof.openings| == x.t
        && exists j :: 0 <= j < x.t && (c == Before(Drawn(x, proof), proof, j) || c == After(x.r, Drawn(x, proof), proof, j)))
  }

  lemma OpeningBacked(x: Instance, proof: PomProof, j: nat)
    requires x.WellPosed() && Accepts(x, proof) && j < x.t
    ensures Backed(x.r, Before(Drawn(x, proof), proof, j), proof.traceRoot)
    ensures Backed(x.r, After(x.r, Drawn(x, proof), proof, j), proof.traceRoot)
  {
    assert OpeningAccepted(x.r, proof.openings[j], Drawn(x, proof)[j], proof.traceRoot, |x.chunks|, x.Canonical());
  }

  /** Every claim of an accepted proof is backed by the trace root. */
  lemma ClaimsBacked(x: Instance, proof: PomProof, c: Commit)
    requires x.WellPosed() && Accepts(x, proof) && Claims(x, proof, c)
    ensures Backed(x.r, c, proof.traceRoot)
  {
    if c != First(x, proof) && c != Final(x, proof) {
      var cs := Drawn(x, proof);
      var j: nat :| j < x.t && (c == Before(cs, proof, j) || c == After(x.r, cs, proof, j));
      OpeningBacked(x, proof, j);
    }
  }

  // ---------- opened steps ----------

  function OpeningClash(x: Instance, op: Opening): (Bytes, Bytes)
    requires |x.chunks| > 0
  {
    ChunkClash(x.r.blake, x.chunks, ChunkIndex(x.r, op.stateBefore, |x.chunks|), op.chunk, op.weightPath)
  }

  /**
   Every opened step of an accepted proof reads the canonical chunk its state selects, so the state after it is the
   honest successor, or the proof yields a collision. No path length is asked for.
   */
  lemma OpeningsAreGenuine(x: Instance, proof: PomProof, j: nat)
    requires x.WellPosed() && Accepts(x, proof) && j < x.t
    ensures var op := proof.openings[j];
            Collision(x.r.blake, OpeningClash(x, op)) || StateAfter(x.r, op) == State(x.r, x.chunks, op.stateBefore, 1)
    ensures var op := proof.openings[j];
            Collision(x.r.blake, OpeningClash(x, op)) || op.chunk == x.chunks[ChunkIndex(x.r, op.stateBefore, |x.chunks|)]
  {
    var op := proof.openings[j];
    assert OpeningAccepted(x.r, op, Drawn(x, proof)[j], proof.traceRoot, |x.chunks|, x.Canonical());
    ChunkBound(x.r.blake, x.chunks, ChunkIndex(x.r, op.stateBefore, |x.chunks|), op.chunk, op.weightPath);
    assert State(x.r, x.chunks, op.stateBefore, 0) == op.stateBefore;
  }

  // ---------- the length test ----------

  /** Every trace path of the proof has this length. */
  predicate PathsHaveLength(proof: PomProof, length: nat) {
    && |proof.initialTracePath| == length && |proof.finalTracePath| == length
    && forall op :: op in proof.openings ==> |op.tracePathBefore| == length && |op.tracePathAfter| == length
  }

  /** The test refuses no honest proof. */
  lemma HonestPathsHaveLength(x: Instance, tier: nat)
    requires x.WellPosed()
    ensures PathsHaveLength(HonestProof(x.r, x.chunks, tier, x.nonce, x.seed, x.k, x.t), Depth(x.k + 1))
  {
  }

  /** Behind the test, any two claims about one position agree, or a collision is computed from them. */
  lemma ClaimsAgree(x: Instance, proof: PomProof, length: nat, a: Commit, b: Commit)
    requires x.WellPosed() && Injective(x.r.leafBytes) && Accepts(x, proof) && PathsHaveLength(proof, length)
    requires Claims(x, proof, a) && Claims(x, proof, b) && a.position == b.position
    ensures a.state == b.state || Collision(x.r.blake, CommitClash(x.r, a, b))
  {
    ClaimsBacked(x, proof, a);
    ClaimsBacked(x, proof, b);
    ClaimLength(x, proof, length, a);
    ClaimLength(x, proof, length, b);
    CommitBound(x.r, a, b, proof.traceRoot);
  }

  lemma ClaimLength(x: Instance, proof: PomProof, length: nat, c: Commit)
    requires x.WellPosed() && PathsHaveLength(proof, length) && Claims(x, proof, c)
    ensures |c.path| == length
  {
    if c != First(x, proof) && c != Final(x, proof) {
      var cs := Drawn(x, proof);
      var j: nat :| j < x.t && (c == Before(cs, proof, j) || c == After(x.r, cs, proof, j));
      assert proof.openings[j] in proof.openings;
    }
  }

  // ---------- stretches of opened steps ----------

  /** Every step from `lo` to before `hi` is drawn. */
  ghost predicate Covered(cs: seq<nat>, lo: nat, hi: nat) {
    forall i: nat :: lo <= i < hi ==> i in cs
  }

  /** Two claims of the proof about one position yield a collision. */
  ghost predicate ClaimClash(x: Instance, proof: PomProof, a: Commit, b: Commit)
    requires x.WellPosed()
  {
    Claims(x, proof, a) && Claims(x, proof, b) && a.position == b.position && Collision(x.r.blake, CommitClash(x.r, a, b))
  }

  /** Opening `j` of the proof yields a collision. */
  ghost predicate ChunkClashes(x: Instance, proof: PomProof, j: nat)
    requires x.WellPosed()
  {
    j < |proof.openings| && Collision(x.r.blake, OpeningClash(x, proof.openings[j]))
  }

  /** A collision is among the pairs computed from two claims of the proof or from one of its openings. */
  ghost predicate Clashes(x: Instance, proof: PomProof)
    requires x.WellPosed()
  {
    || (exists a, b :: ClaimClash(x, proof, a, b))
    || (exists j: nat :: ChunkClashes(x, proof, j))
  }

  /** The walk over the canonical chunks leads from the one claimed state to the other. */
  ghost predicate Arrives(x: Instance, a: Commit, b: Commit)
    requires |x.chunks| > 0
  {
    a.position <= b.position && b.state == State(x.r, x.chunks, a.state, b.position - a.position)
  }

  ghost predicate Walked(x: Instance, proof: PomProof, a: Commit, b: Commit)
    requires x.WellPosed()
  {
    Arrives(x, a, b) || Clashes(x, proof)
  }

  lemma SamePlaceWalked(x: Instance, proof: PomProof, length: nat, a: Commit, b: Commit)
    requires x.WellPosed() && Injective(x.r.leafBytes) && Accepts(x, proof) && PathsHaveLength(proof, length)
    requires Claims(x, proof, a) && Claims(x, proof, b) && a.position == b.position
    ensures Walked(x, proof, a, b)
  {
    ClaimsAgree(x, proof, length, a, b);
    assert a.state == b.state || ClaimClash(x, proof, a, b);
    assert State(x.r, x.chunks, a.state, 0) == a.state;
  }

  lemma OpeningWalked(x: Instance, proof: PomProof, j: nat)
    requires x.WellPosed() && Accepts(x, proof) && j < x.t
    ensures Walked(x, proof, Before(Drawn(x, proof), proof, j), After(x.r, Drawn(x, proof), proof, j))
  {
    OpeningsAreGenuine(x, proof, j);
    assert Collision(x.r.blake, OpeningClash(x, proof.openings[j])) ==> ChunkClashes(x, proof, j);
  }

  lemma OpeningClaims(x: Instance, proof: PomProof, j: nat)
    requires x.WellPosed() && |proof.openings| == x.t && j < x.t
    ensures Claims(x, proof, Before(Drawn(x, proof), proof, j)) && Claims(x, proof, After(x.r, Drawn(x, proof), proof, j))
  {
  }

  lemma {:induction false} StatesAdd(r: Rules, chunks: seq<Digest>, s: Word, m: nat, n: nat)
    requires |chunks| > 0
    ensures State(r, chunks, State(r, chunks, s, m), n) == State(r, chunks, s, m + n)
  {
    if n > 0 {
      StatesAdd(r, chunks, s, m, n - 1);
    }
  }

  lemma ArrivesOn(x: Instance, a: Commit, b: Commit, c: Commit)
    requires |x.chunks| > 0 && Arrives(x, a, b) && Arrives(x, b, c)
    ensures Arrives(x, a, c)
  {
    StatesAdd(x.r, x.chunks, a.state, b.position - a.position, c.position - b.position);
  }

  lemma WalkedOn(x: Instance, proof: PomProof, a: Commit, b: Commit, c: Commit)
    requires x.WellPosed() && Walked(x, proof, a, b) && Walked(x, proof, b, c)
    ensures Walked(x, proof, a, c)
  {
    if Arrives(x, a, b) && Arrives(x, b, c) {
      ArrivesOn(x, a, b, c);
    }
  }

  /** A claim about the position after a drawn step is reached from what the proof claims before that step. */
  lemma LastStepWalked(x: Instance, proof: PomProof, length: nat, c: Commit) returns (before: Commit)
    requires x.WellPosed() && Injective(x.r.leafBytes) && Accepts(x, proof) && PathsHaveLength(proof, length)
    requires Claims(x, proof, c) && c.position > 0 && c.position - 1 in Drawn(x, proof)
    ensures Claims(x, proof, before) && before.position == c.position - 1 && Walked(x, proof, before, c)
  {
    var cs := Drawn(x, proof);
    var j: nat :| j < |cs| && cs[j] == c.position - 1;
    before := Before(cs, proof, j);
    var after := After(x.r, cs, proof, j);
    OpeningClaims(x, proof, j);
    OpeningWalked(x, proof, j);
    SamePlaceWalked(x, proof, length, after, c);
    WalkedOn(x, proof, before, after, c);
  }

  /**
   Where consecutive steps are all opened, the proof walks: from any state it claims before them, it claims the state
   that the walk over the canonical chunks reaches, or a collision is computed.
   */
  lemma {:induction false} StretchIsWalked(x: Instance, proof: PomProof, length: nat, start: Commit, c: Commit)
    requires x.WellPosed() && Injective(x.r.leafBytes) && Accepts(x, proof) && PathsHaveLength(proof, length)
    requires Claims(x, proof, start) && Claims(x, proof, c) && start.position <= c.position
    requires Covered(Drawn(x, proof), start.position, c.position)
    ensures Walked(x, proof, start, c)
    decreases c.position
  {
    if start.position == c.position {
      SamePlaceWalked(x, proof, length, start, c);
    } else {
      var before := LastStepWalked(x, proof, length, c);
      StretchIsWalked(x, proof, length, start, before);
      WalkedOn(x, proof, start, before, c);
    }
  }

  /** With every step opened, the final state is the one the walk reaches and the nonce wins, or a collision is computed. */
  lemma FullyOpenedProofIsHonest(x: Instance, proof: PomProof, length: nat)
    requires x.WellPosed() && x.seed == x.r.seed(x.nonce) && Injective(x.r.leafBytes)
    requires Accepts(x, proof) && PathsHaveLength(proof, length) && Covered(Drawn(x, proof), 0, x.k)
    ensures (proof.finalState == State(x.r, x.chunks, x.seed, x.k) && Wins(x.r, x.chunks, x.target, x.k, x.nonce))
         || Clashes(x, proof)
  {
    StretchIsWalked(x, proof, length, First(x, proof), Final(x, proof));
  }

  /** Opening every step takes as many openings as steps: 32 openings never cover 256 steps. */
  lemma {:induction false} CoverNeedsAll(cs: seq<nat>, k: nat)
    requires Covered(cs, 0, k)
    ensures k <= |cs|
    decreases k
  {
    if k > 0 {
      assert k - 1 in cs;
      var j: nat :| j < |cs| && cs[j] == k - 1;
      var rest := cs[..j] + cs[j + 1..];
      forall i: nat | 0 <= i < k - 1
        ensures i in rest
      {
        assert i in cs;
        var p: nat :| p < |cs| && cs[p] == i;
        assert rest[if p < j then p else p - 1] == i;
      }
      CoverNeedsAll(rest, k - 1);
    }
  }
}
