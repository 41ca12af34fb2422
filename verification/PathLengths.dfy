/**
 What the path lengths decide. The verifier of `src/pom.rs` compares none of them. Without such a test acceptance binds
 the final state exactly when there is no step to walk: for every other walk length, every word whose pow value meets
 the target is the final state of an accepted proof all of whose openings are genuine.
 */
module PathLengths {
  import opened Digests
  import opened Words
  import opened Numbers
  import opened DenseTree
  import opened WeightIndex
  import opened Pom
  import opened Binding
  import opened Soundness
  import LE = LittleEndian

  // ---------- positions ----------

  lemma {:induction false} TopBitIsLast(k: nat)
    requires k > 0
    ensures ShiftRight(k, FloorLog2(k)) == 1 && FloorLog2(k) < Depth(k + 1)
  {
    if k > 1 {
      TopBitIsLast(k / 2);
      assert Half(k + 1) == k / 2 + 1;
    } else {
      assert Half(2) == 1;
    }
  }

  lemma {:induction false} ShiftRightDepth(i: nat, n: nat)
    requires i < n
    ensures ShiftRight(i, Depth(n)) == 0
    decreases n
  {
    if n > 1 {
      ShiftRightDepth(i / 2, Half(n));
    }
  }

  /** One sibling more on a path hashes its end once more. */
  lemma ClimbAppend(h: Hash, acc: Digest, idx: nat, path: seq<Digest>, sib: Digest)
    ensures Climb(Pair(h), acc, idx, path + [sib]) == h(Preimage(Climb(Pair(h), acc, idx, path), ShiftRight(idx, |path|), sib))
  {
    LastStep(h, acc, idx, path + [sib], |path| + 1);
    assert (path + [sib])[..|path|] == path;
  }

  // ---------- a proof of another final state ----------

  function HonestLeaves(x: Instance): (leaves: seq<Digest>)
    requires x.WellPosed()
    ensures |leaves| == x.k + 1
  {
    TraceLeaves(x.r, Trace(x.r, x.chunks, x.seed, x.k))
  }

  function HonestRoot(x: Instance): Digest
    requires x.WellPosed()
  {
    Root(x.r.Pair(), HonestLeaves(x))
  }

  /** Siblings for the final state: its path leaves the tree's left edge at the highest one of `k`. */
  function Pads(x: Instance): seq<Digest>
    requires x.WellPosed() && x.k > 0
  {
    seq(FloorLog2(x.k), _ => HonestRoot(x))
  }

  /** The node over the other final state, put beside the honest trace root. */
  function Graft(x: Instance, f: Word): Digest
    requires x.WellPosed() && x.k > 0
  {
    Climb(x.r.Pair(), TraceLeaf(x.r, f), x.k, Pads(x))
  }

  /** Path of an honest state, one level longer than the honest tree is deep. */
  function LongPath(x: Instance, f: Word, i: nat): (path: seq<Digest>)
    requires x.WellPosed() && x.k > 0 && i <= x.k
    ensures |path| == Depth(x.k + 1) + 1
  {
    Proof(x.r.Pair(), HonestLeaves(x), i) + [Graft(x, f)]
  }

  function LongOpening(x: Instance, f: Word, i: nat): Opening
    requires x.WellPosed() && i < x.k
  {
    var op := HonestOpening(x.r, x.chunks, x.seed, x.k, i);
    Opening(op.stateBefore, op.chunk, op.weightPath, LongPath(x, f, i), LongPath(x, f, i + 1))
  }

  function JointRoot(x: Instance, f: Word): Digest
    requires x.WellPosed() && x.k > 0
  {
    x.r.blake(Join(HonestRoot(x), Graft(x, f)))
  }

  function Picks(x: Instance, f: Word): (cs: seq<nat>)
    requires x.WellPosed() && x.k > 0
    ensures |cs| == x.t && forall j :: 0 <= j < x.t ==> cs[j] < x.k
  {
    Challenges(x.r, x.nonce, JointRoot(x, f), x.r.pow(f), x.t, x.k)
  }

  /** The walk is honest, every opening is genuine, and the final state is `f`. */
  function OtherFinal(x: Instance, tier: nat, f: Word): PomProof
    requires x.WellPosed() && x.k > 0
  {
    var cs := Picks(x, f);
    PomProof(tier, JointRoot(x, f), x.r.pow(f), f, LongPath(x, f, 0), Pads(x) + [HonestRoot(x)],
             seq(x.t, j requires 0 <= j < x.t => LongOpening(x, f, cs[j])))
  }

  lemma LongPathClimbs(x: Instance, f: Word, i: nat)
    requires x.WellPosed() && x.k > 0 && i <= x.k
    ensures Climb(x.r.Pair(), TraceLeaf(x.r, State(x.r, x.chunks, x.seed, i)), i, LongPath(x, f, i)) == JointRoot(x, f)
  {
    var leaves := HonestLeaves(x);
    ProofClimbs(x.r.Pair(), leaves, i);
    ShiftRightDepth(i, x.k + 1);
    ClimbAppend(x.r.blake, leaves[i], i, Proof(x.r.Pair(), leaves, i), Graft(x, f));
  }

  lemma FinalPathClimbs(x: Instance, f: Word)
    requires x.WellPosed() && x.k > 0
    ensures Climb(x.r.Pair(), TraceLeaf(x.r, f), x.k, Pads(x) + [HonestRoot(x)]) == JointRoot(x, f)
  {
    TopBitIsLast(x.k);
    ClimbAppend(x.r.blake, TraceLeaf(x.r, f), x.k, Pads(x), HonestRoot(x));
  }

  lemma ChunkClimbs(x: Instance, off: nat)
    requires off < |x.chunks|
    ensures Climb(x.r.Pair(), x.r.blake(x.chunks[off]), off, Proof(x.r.Pair(), Leaves(x.r.blake, x.chunks), off)) == x.Canonical()
  {
    ProofClimbs(x.r.Pair(), Leaves(x.r.blake, x.chunks), off);
  }

  lemma LongOpeningSteps(x: Instance, f: Word, i: nat)
    requires x.WellPosed() && i < x.k
    ensures StateAfter(x.r, LongOpening(x, f, i)) == State(x.r, x.chunks, x.seed, i + 1)
  {
  }

  lemma LongBeforeClimbs(x: Instance, f: Word, i: nat)
    requires x.WellPosed() && i < x.k
    ensures var op := LongOpening(x, f, i);
            Climb(x.r.Pair(), TraceLeaf(x.r, op.stateBefore), i, op.tracePathBefore) == JointRoot(x, f)
  {
    LongPathClimbs(x, f, i);
  }

  lemma LongAfterClimbs(x: Instance, f: Word, i: nat)
    requires x.WellPosed() && i < x.k
    ensures var op := LongOpening(x, f, i);
            Climb(x.r.Pair(), TraceLeaf(x.r, StateAfter(x.r, op)), i + 1, op.tracePathAfter) == JointRoot(x, f)
  {
    LongOpeningSteps(x, f, i);
    LongPathClimbs(x, f, i + 1);
  }

  lemma LongOpeningAccepted(x: Instance, f: Word, i: nat)
    requires x.WellPosed() && i < x.k
    ensures OpeningAccepted(x.r, LongOpening(x, f, i), i, JointRoot(x, f), |x.chunks|, x.Canonical())
  {
    LongBeforeClimbs(x, f, i);
    LongAfterClimbs(x, f, i);
    ChunkClimbs(x, ChunkIndex(x.r, LongOpening(x, f, i).stateBefore, |x.chunks|));
  }

  /** With a step to walk, every word that meets the target is the final state of an accepted proof. */
  lemma OtherFinalAccepted(x: Instance, tier: nat, f: Word)
    requires x.WellPosed() && x.k > 0 && LE.Value(x.r.pow(f)) <= LE.Value(x.target)
    ensures Accepts(x, OtherFinal(x, tier, f))
  {
    LongPathClimbs(x, f, 0);
    FinalPathClimbs(x, f);
    var cs := Picks(x, f);
    forall j | 0 <= j < x.t
      ensures OpeningAccepted(x.r, LongOpening(x, f, cs[j]), cs[j], JointRoot(x, f), |x.chunks|, x.Canonical())
    {
      LongOpeningAccepted(x, f, cs[j]);
    }
  }

  /** The length test refuses that proof, whatever length it asks for. */
  lemma OtherFinalIsUneven(x: Instance, tier: nat, f: Word, length: nat)
    requires x.WellPosed() && x.k > 0
    ensures !PathsHaveLength(OtherFinal(x, tier, f), length)
  {
    TopBitIsLast(x.k);
  }

  // ---------- no collision in it ----------

  /** The claim an opening makes about the honest state at a position. */
  function Long(x: Instance, f: Word, i: nat): Commit
    requires x.WellPosed() && x.k > 0 && i <= x.k
  {
    Commit(i, State(x.r, x.chunks, x.seed, i), LongPath(x, f, i))
  }

  lemma OpeningIsLong(x: Instance, tier: nat, f: Word, j: nat)
    requires x.WellPosed() && x.k > 0 && j < x.t
    ensures var cs, proof := Picks(x, f), OtherFinal(x, tier, f);
            Before(cs, proof, j) == Long(x, f, cs[j]) && After(x.r, cs, proof, j) == Long(x, f, cs[j] + 1)
  {
    LongOpeningSteps(x, f, Picks(x, f)[j]);
  }

  lemma ClaimIsLong(x: Instance, tier: nat, f: Word, c: Commit)
    requires x.WellPosed() && x.k > 0 && Claims(x, OtherFinal(x, tier, f), c)
    ensures c == Final(x, OtherFinal(x, tier, f)) || (c.position <= x.k && c == Long(x, f, c.position))
  {
    var proof := OtherFinal(x, tier, f);
    if c != First(x, proof) && c != Final(x, proof) {
      var cs := Picks(x, f);
      assert Drawn(x, proof) == cs;
      var j: nat :| j < x.t && (c == Before(cs, proof, j) || c == After(x.r, cs, proof, j));
      OpeningIsLong(x, tier, f, j);
    }
  }

  lemma SameClaimNeverClashes(r: Rules, c: Commit)
    ensures !Collision(r.blake, CommitClash(r, c, c))
  {
  }

  /** Paths of different lengths to one position other than 0 yield nothing. */
  lemma UnequalNeverClashes(r: Rules, a: Commit, b: Commit)
    requires TraceLeaf(r, a.state) != TraceLeaf(r, b.state) && |a.path| != |b.path| && a.position == b.position != 0
    ensures !Collision(r.blake, CommitClash(r, a, b)) && !Collision(r.blake, CommitClash(r, b, a))
  {
  }

  lemma FinalBesideLong(x: Instance, tier: nat, f: Word)
    requires x.WellPosed() && x.k > 0 && TraceLeaf(x.r, f) != TraceLeaf(x.r, State(x.r, x.chunks, x.seed, x.k))
    ensures var final, long := Final(x, OtherFinal(x, tier, f)), Long(x, f, x.k);
            !Collision(x.r.blake, CommitClash(x.r, final, long)) && !Collision(x.r.blake, CommitClash(x.r, long, final))
  {
    TopBitIsLast(x.k);
    UnequalNeverClashes(x.r, Final(x, OtherFinal(x, tier, f)), Long(x, f, x.k));
  }

  lemma NoClaimClash(x: Instance, tier: nat, f: Word, a: Commit, b: Commit)
    requires x.WellPosed() && x.k > 0 && TraceLeaf(x.r, f) != TraceLeaf(x.r, State(x.r, x.chunks, x.seed, x.k))
    ensures !ClaimClash(x, OtherFinal(x, tier, f), a, b)
  {
    var proof := OtherFinal(x, tier, f);
    if Claims(x, proof, a) && Claims(x, proof, b) && a.position == b.position {
      ClaimIsLong(x, tier, f, a);
      ClaimIsLong(x, tier, f, b);
      if a == b {
        SameClaimNeverClashes(x.r, a);
      } else {
        FinalBesideLong(x, tier, f);
      }
    }
  }

  lemma SiblingsAreChildren(level: seq<Digest>, idx: nat)
    requires idx < |level|
    ensures Preimage(level[idx], idx, Sibling(level, idx)) == Children(level, idx / 2)
  {
  }

  /** Descending one level from the parent ends at the child the path came from. */
  lemma DescendStep(h: Hash, level: seq<Digest>, idx: nat, path: seq<Digest>)
    requires idx < |level| && path != [] && path[0] == Sibling(level, idx)
    requires Descend(h, Up(Pair(h), level), h(Children(level, idx / 2)), idx / 2, path[1..]) == Hit(idx / 2)
    ensures Descend(h, level, level[idx], idx, path) == Hit(idx)
  {
    SiblingsAreChildren(level, idx);
  }

  /** An honest path descends to the node it was made for. */
  lemma {:induction false} DescendHonest(h: Hash, level: seq<Digest>, idx: nat)
    requires idx < |level|
    ensures Descend(h, level, level[idx], idx, Proof(Pair(h), level, idx)) == Hit(idx)
    decreases |level|
  {
    if |level| > 1 {
      var up, path := Up(Pair(h), level), Proof(Pair(h), level, idx);
      DescendHonest(h, up, idx / 2);
      assert path[1..] == Proof(Pair(h), up, idx / 2);
      assert up[idx / 2] == h(Children(level, idx / 2));
      DescendStep(h, level, idx, path);
    }
  }

  lemma NoChunkClash(x: Instance, tier: nat, f: Word, j: nat)
    requires x.WellPosed() && x.k > 0
    ensures !ChunkClashes(x, OtherFinal(x, tier, f), j)
  {
    if j < x.t {
      var s := State(x.r, x.chunks, x.seed, Picks(x, f)[j]);
      DescendHonest(x.r.blake, Leaves(x.r.blake, x.chunks), ChunkIndex(x.r, s, |x.chunks|));
    }
  }

  lemma NoClash(x: Instance, tier: nat, f: Word)
    requires x.WellPosed() && x.k > 0 && TraceLeaf(x.r, f) != TraceLeaf(x.r, State(x.r, x.chunks, x.seed, x.k))
    ensures !Clashes(x, OtherFinal(x, tier, f))
  {
    forall a, b
      ensures !ClaimClash(x, OtherFinal(x, tier, f), a, b)
    {
      NoClaimClash(x, tier, f, a, b);
    }
    forall j: nat
      ensures !ChunkClashes(x, OtherFinal(x, tier, f), j)
    {
      NoChunkClash(x, tier, f, j);
    }
  }

  // ---------- what acceptance alone binds ----------

  /** Some accepted proof ends in `f`, and no collision is computed from it. */
  ghost predicate Passable(x: Instance, f: Word)
    requires x.WellPosed()
  {
    exists proof :: Accepts(x, proof) && proof.finalState == f && !Clashes(x, proof)
  }

  /** Without a step to walk, an accepted proof ends in the seed or yields a collision, whatever its path lengths. */
  lemma NoStepsNoTest(x: Instance, proof: PomProof)
    requires x.WellPosed() && Injective(x.r.leafBytes) && LeavesAreNoNodes(x.r)
    requires x.k == 0 && Accepts(x, proof)
    ensures proof.finalState == x.seed || Clashes(x, proof)
  {
    CommitBoundAtZero(x.r, First(x, proof), Final(x, proof), proof.traceRoot);
    assert proof.finalState == x.seed || ClaimClash(x, proof, First(x, proof), Final(x, proof));
  }

  /** Acceptance alone binds the final state exactly when there is no step to walk. */
  lemma PassableIff(x: Instance, f: Word)
    requires x.WellPosed() && Injective(x.r.leafBytes) && LeavesAreNoNodes(x.r)
    requires LE.Value(x.r.pow(f)) <= LE.Value(x.target)
    requires TraceLeaf(x.r, f) != TraceLeaf(x.r, State(x.r, x.chunks, x.seed, x.k))
    ensures Passable(x, f) <==> x.k > 0
  {
    if x.k > 0 {
      OtherFinalAccepted(x, 0, f);
      NoClash(x, 0, f);
    } else {
      forall proof | Accepts(x, proof) && proof.finalState == f
        ensures Clashes(x, proof)
      {
        NoStepsNoTest(x, proof);
      }
    }
  }

  /** Opening the only step does not help: a walk of one step is fully opened by any proof with an opening. */
  lemma OneStepIsCovered(x: Instance, proof: PomProof)
    requires x.WellPosed() && x.k == 1 && x.t > 0
    ensures Covered(Drawn(x, proof), 0, x.k)
  {
    assert Drawn(x, proof)[0] == 0;
  }
}
