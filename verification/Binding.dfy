/**
 What an accepted proof binds its maker to. Every conclusion holds unless a pair of different byte strings with the
 same hash can be read off the proof and the honest tree; the pair is computed, not merely claimed to exist.
 */
module Binding {
  import opened Digests
  import opened Words
  import opened Numbers
  import opened DenseTree
  import opened WeightIndex
  import opened Pom

  // ---------- paths into an honest tree ----------

  /** The 64 bytes hashed at one step of a path. */
  function Preimage(acc: Digest, idx: nat, sib: Digest): (b: Bytes)
    ensures |b| == 64
  {
    if idx % 2 == 0 then Join(acc, sib) else Join(sib, acc)
  }

  function Children(level: seq<Digest>, q: nat): (b: Bytes)
    requires 2 * q < |level|
    ensures |b| == 64
  {
    Join(level[2 * q], RightChild(level, 2 * q))
  }

  /** Where a path that reaches the top of an honest tree starts: at a node of it, or in a clash. */
  datatype Outcome = Hit(q: nat) | Clash(pair: (Bytes, Bytes))

  function Descend(h: Hash, level: seq<Digest>, acc: Digest, idx: nat, path: seq<Digest>): (o: Outcome)
    requires |level| > 0
    ensures o.Hit? ==> o.q < |level|
    decreases |path|
  {
    if path == [] then Hit(0)
    else
      var mine := Preimage(acc, idx, path[0]);
      match Descend(h, Up(Pair(h), level), h(mine), idx / 2, path[1..])
      case Clash(pair) => Clash(pair)
      case Hit(q) =>
        if mine != Children(level, q) then Clash((mine, Children(level, q)))
        else Hit(if idx % 2 == 1 && 2 * q + 1 < |level| then 2 * q + 1 else 2 * q)
  }

  lemma JoinInjective(a: Digest, b: Digest, c: Digest, d: Digest)
    requires Join(a, b) == Join(c, d)
    ensures a == c && b == d
  {
    assert Join(a, b)[..32] == a && Join(c, d)[..32] == c;
    assert Join(a, b)[32..] == b && Join(c, d)[32..] == d;
  }

  lemma {:induction false} DescendSound(h: Hash, level: seq<Digest>, acc: Digest, idx: nat, path: seq<Digest>)
    requires |level| > 0 && CountAt(|level|, |path|) == 1
    requires Climb(Pair(h), acc, idx, path) == Ups(Pair(h), level, |path|)[0]
    ensures match Descend(h, level, acc, idx, path)
            case Hit(q) => level[q] == acc && (idx < |level| ==> q == idx)
            case Clash(pair) => Collision(h, pair)
    decreases |path|
  {
    if path != [] {
      var up := Up(Pair(h), level);
      var mine := Preimage(acc, idx, path[0]);
      DescendSound(h, up, h(mine), idx / 2, path[1..]);
      match Descend(h, up, h(mine), idx / 2, path[1..])
      case Clash(_) =>
      case Hit(q) =>
        assert up[q] == h(Children(level, q));
        if mine == Children(level, q) {
          if idx % 2 == 0 {
            JoinInjective(acc, path[0], level[2 * q], RightChild(level, 2 * q));
          } else {
            JoinInjective(path[0], acc, level[2 * q], RightChild(level, 2 * q));
          }
        }
    }
  }

  lemma {:induction false} ClimbSplit(h: Hash, acc: Digest, idx: nat, path: seq<Digest>, n: nat)
    requires n <= |path|
    ensures Climb(Pair(h), acc, idx, path) == Climb(Pair(h), Climb(Pair(h), acc, idx, path[..n]), ShiftRight(idx, n), path[n..])
    decreases n
  {
    if n > 0 {
      var next := h(Preimage(acc, idx, path[0]));
      ClimbSplit(h, next, idx / 2, path[1..], n - 1);
      assert path[1..][..n - 1] == path[..n][1..] && path[1..][n - 1..] == path[n..];
    }
  }

  // ---------- opened chunks ----------

  /** The pair that collides when an accepted weight path carries something else than the canonical chunk. */
  function ChunkClash(h: Hash, chunks: seq<Digest>, off: nat, chunk: Digest, path: seq<Digest>): (Bytes, Bytes)
    requires off < |chunks|
  {
    var leaves, d := Leaves(h, chunks), Depth(|chunks|);
    if |path| == d then
      match Descend(h, leaves, h(chunk), off, path)
      case Clash(pair) => pair
      case Hit(_) => (chunk, chunks[off])
    else if |path| < d then
      var below := Ups(Pair(h), leaves, d - |path| - 1);
      CountAtPositive(|chunks|, d - |path| - 1);
      match Descend(h, Up(Pair(h), below), h(chunk), off, path)
      case Clash(pair) => pair
      case Hit(q) => (chunk, Children(below, q))
    else
      var last := LastPreimage(h, h(chunk), off, path, |path| - d);
      match Descend(h, leaves, h(last), ShiftRight(off, |path| - d), path[|path| - d..])
      case Clash(pair) => pair
      case Hit(q) => (last, chunks[q])
  }

  /** The 64 bytes hashed at step `n` of a path. */
  function LastPreimage(h: Hash, acc: Digest, idx: nat, path: seq<Digest>, n: nat): (b: Bytes)
    requires 0 < n <= |path|
    ensures |b| == 64
  {
    Preimage(Climb(Pair(h), acc, idx, path[..n - 1]), ShiftRight(idx, n - 1), path[n - 1])
  }

  lemma {:induction false} ShiftRightStep(i: nat, n: nat)
    ensures ShiftRight(i, n + 1) == ShiftRight(i, n) / 2
  {
    if n > 0 {
      ShiftRightStep(i / 2, n - 1);
    }
  }

  lemma LastStep(h: Hash, acc: Digest, idx: nat, path: seq<Digest>, n: nat)
    requires 0 < n <= |path|
    ensures Climb(Pair(h), acc, idx, path) == Climb(Pair(h), h(LastPreimage(h, acc, idx, path, n)), ShiftRight(idx, n), path[n..])
  {
    ClimbSplit(h, acc, idx, path, n - 1);
    ShiftRightStep(idx, n - 1);
    ClimbOne(h, Climb(Pair(h), acc, idx, path[..n - 1]), ShiftRight(idx, n - 1), path, n - 1);
  }

  lemma ClimbOne(h: Hash, acc: Digest, idx: nat, path: seq<Digest>, n: nat)
    requires n < |path|
    ensures Climb(Pair(h), acc, idx, path[n..]) == Climb(Pair(h), h(Preimage(acc, idx, path[n])), idx / 2, path[n + 1..])
  {
    assert path[n..][0] == path[n] && path[n..][1..] == path[n + 1..];
  }

  /**
   An accepted weight path opens the canonical chunk or yields a collision. No length is asked of the path: a path
   of another length would make a 32-byte chunk hash like a 64-byte node.
   */
  lemma ChunkBound(h: Hash, chunks: seq<Digest>, off: nat, chunk: Digest, path: seq<Digest>)
    requires off < |chunks| && Climb(Pair(h), h(chunk), off, path) == Root(Pair(h), Leaves(h, chunks))
    ensures chunk == chunks[off] || Collision(h, ChunkClash(h, chunks, off, chunk, path))
  {
    var leaves, d := Leaves(h, chunks), Depth(|chunks|);
    CountAtDepth(|chunks|);
    if |path| == d {
      DescendSound(h, leaves, h(chunk), off, path);
    } else if |path| < d {
      ShortPath(h, leaves, off, chunk, path);
    } else {
      var n := |path| - d;
      LastStep(h, h(chunk), off, path, n);
      DescendSound(h, leaves, h(LastPreimage(h, h(chunk), off, path, n)), ShiftRight(off, n), path[n..]);
    }
  }

  /** The root is `n` levels above the level above `below`. */
  lemma TopAbove(h: Hash, leaves: seq<Digest>, r: nat, n: nat, below: seq<Digest>)
    requires |leaves| > 0 && r + n + 1 == Depth(|leaves|) && below == Ups(Pair(h), leaves, r)
    ensures |below| > 0 && CountAt(Half(|below|), n) == 1
    ensures Ups(Pair(h), Up(Pair(h), below), n)[0] == Root(Pair(h), leaves)
  {
    CountAtPositive(|leaves|, r);
    CountAtDepth(|leaves|);
    UpsAdd(Pair(h), leaves, r, n + 1);
    CountAtAdd(|leaves|, r, n + 1);
  }

  /** Descending from the level above `below` ends in a collision, or at a node whose children collide with the chunk. */
  ghost predicate ShortClash(h: Hash, below: seq<Digest>, chunk: Digest, off: nat, path: seq<Digest>) {
    |below| > 0
    && match Descend(h, Up(Pair(h), below), h(chunk), off, path)
       case Clash(pair) => Collision(h, pair)
       case Hit(q) => Collision(h, (chunk, Children(below, q)))
  }

  /** A path shorter than the tree is deep gives a collision between a chunk and the bytes of an inner node. */
  lemma ShortPath(h: Hash, leaves: seq<Digest>, off: nat, chunk: Digest, path: seq<Digest>)
    requires |leaves| > 0 && |path| < Depth(|leaves|)
    requires Climb(Pair(h), h(chunk), off, path) == Root(Pair(h), leaves)
    ensures ShortClash(h, Ups(Pair(h), leaves, Depth(|leaves|) - |path| - 1), chunk, off, path)
  {
    var r: nat := Depth(|leaves|) - |path| - 1;
    var below := Ups(Pair(h), leaves, r);
    TopAbove(h, leaves, r, |path|, below);
    ShortPathFrom(h, below, chunk, off, path);
  }

  lemma ShortPathFrom(h: Hash, below: seq<Digest>, chunk: Digest, off: nat, path: seq<Digest>)
    requires |below| > 0 && CountAt(Half(|below|), |path|) == 1
    requires Climb(Pair(h), h(chunk), off, path) == Ups(Pair(h), Up(Pair(h), below), |path|)[0]
    ensures ShortClash(h, below, chunk, off, path)
  {
    DescendSound(h, Up(Pair(h), below), h(chunk), off, path);
    match Descend(h, Up(Pair(h), below), h(chunk), off, path)
    case Clash(_) =>
    case Hit(q) => NodeIsHash(h, below, q);
  }

  lemma NodeIsHash(h: Hash, below: seq<Digest>, q: nat)
    requires q < Half(|below|)
    ensures Up(Pair(h), below)[q] == h(Children(below, q)) && |Children(below, q)| == 64
  {
  }

  // ---------- two openings of one trace position ----------

  /** The pair that collides when two equally long paths fold different leaves to one root. */
  function PathClash(h: Hash, a: Digest, b: Digest, idx: nat, p: seq<Digest>, q: seq<Digest>): (Bytes, Bytes)
    requires |p| == |q|
    decreases |p|
  {
    if p == [] then ([], [])
    else
      var mine, other := Preimage(a, idx, p[0]), Preimage(b, idx, q[0]);
      if mine != other && h(mine) == h(other) then (mine, other)
      else PathClash(h, h(mine), h(other), idx / 2, p[1..], q[1..])
  }

  lemma {:induction false} PathBound(h: Hash, a: Digest, b: Digest, idx: nat, p: seq<Digest>, q: seq<Digest>)
    requires |p| == |q| && Climb(Pair(h), a, idx, p) == Climb(Pair(h), b, idx, q)
    ensures a == b || Collision(h, PathClash(h, a, b, idx, p, q))
    decreases |p|
  {
    if p != [] {
      var mine, other := Preimage(a, idx, p[0]), Preimage(b, idx, q[0]);
      if mine == other {
        if idx % 2 == 0 {
          JoinInjective(a, p[0], b, q[0]);
        } else {
          JoinInjective(p[0], a, q[0], b);
        }
      } else if h(mine) != h(other) {
        PathBound(h, h(mine), h(other), idx / 2, p[1..], q[1..]);
      }
    }
  }

  /** A claim, backed by a path to the trace root, about the state at one trace position. */
  datatype Commit = Commit(position: nat, state: Word, path: seq<Digest>)

  ghost predicate Backed(r: Rules, c: Commit, root: Digest) {
    Climb(r.Pair(), TraceLeaf(r, c.state), c.position, c.path) == root
  }

  /** The hash never sees 64 bytes of a leaf, so no leaf is hashed like an inner node. */
  ghost predicate LeavesAreNoNodes(r: Rules) {
    forall s :: |r.leafBytes(s)| != 64
  }

  /** The pair that collides when a longer path from position 0 ends in the root of a shorter one. */
  function ZeroClash(r: Rules, a: Commit, b: Commit): (Bytes, Bytes)
    requires |a.path| < |b.path|
  {
    var (leaf, other, n) := (TraceLeaf(r, a.state), TraceLeaf(r, b.state), |b.path| - |a.path|);
    var last := LastPreimage(r.blake, other, 0, b.path, n);
    if leaf == r.blake(last) then (r.leafBytes(a.state), last)
    else PathClash(r.blake, leaf, r.blake(last), 0, a.path, b.path[n..])
  }

  /** Compares paths of one length, and paths of any lengths where both start at position 0. */
  function CommitClash(r: Rules, a: Commit, b: Commit): (Bytes, Bytes)
  {
    var (p, q) := (|a.path|, |b.path|);
    if TraceLeaf(r, a.state) == TraceLeaf(r, b.state) then (r.leafBytes(a.state), r.leafBytes(b.state))
    else if p == q then PathClash(r.blake, TraceLeaf(r, a.state), TraceLeaf(r, b.state), a.position, a.path, b.path)
    else if a.position != 0 then ([], [])
    else if p < q then ZeroClash(r, a, b)
    else ZeroClash(r, b, a)
  }

  /** Claims about one position, on paths of one length, agree or yield a collision. */
  lemma CommitBound(r: Rules, a: Commit, b: Commit, root: Digest)
    requires Injective(r.leafBytes) && Backed(r, a, root) && Backed(r, b, root)
    requires a.position == b.position && |a.path| == |b.path|
    ensures a.state == b.state || Collision(r.blake, CommitClash(r, a, b))
  {
    PathBound(r.blake, TraceLeaf(r, a.state), TraceLeaf(r, b.state), a.position, a.path, b.path);
  }

  lemma {:induction false} ShiftRightZero(n: nat)
    ensures ShiftRight(0, n) == 0
  {
    if n > 0 {
      ShiftRightZero(n - 1);
    }
  }

  /** At position 0 the path lengths do not matter: a leaf would hash like an inner node. */
  lemma CommitBoundAtZero(r: Rules, a: Commit, b: Commit, root: Digest)
    requires Injective(r.leafBytes) && LeavesAreNoNodes(r) && Backed(r, a, root) && Backed(r, b, root)
    requires a.position == b.position == 0
    ensures a.state == b.state || Collision(r.blake, CommitClash(r, a, b))
  {
    if |a.path| == |b.path| {
      CommitBound(r, a, b, root);
    } else if |a.path| < |b.path| {
      UnequalAtZero(r, a, b, root);
    } else {
      UnequalAtZero(r, b, a, root);
    }
  }

  lemma UnequalAtZero(r: Rules, a: Commit, b: Commit, root: Digest)
    requires LeavesAreNoNodes(r) && Backed(r, a, root) && Backed(r, b, root)
    requires a.position == b.position == 0 && |a.path| < |b.path|
    ensures Collision(r.blake, ZeroClash(r, a, b))
  {
    var n: nat := |b.path| - |a.path|;
    LastStep(r.blake, TraceLeaf(r, b.state), 0, b.path, n);
    ShiftRightZero(n);
    var last := LastPreimage(r.blake, TraceLeaf(r, b.state), 0, b.path, n);
    PathBound(r.blake, TraceLeaf(r, a.state), r.blake(last), 0, a.path, b.path[n..]);
  }
}
