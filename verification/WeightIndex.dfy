/**
 The weight index of `src/pom.rs`: built in one pass over the model file into a sparse checkpoint file, then
 queried for chunks and inclusion paths.
 */
module WeightIndex {
  import opened Digests
  import opened DenseTree
  import opened SparseTree
  import opened Chunks
  import opened Numbers
  import CF = CheckpointFile
  import opened Options
  import Nodes

  datatype Index = Index(
    nChunks: nat, root: Digest, gguf: Bytes, table: seq<Entry>,
    tree: seq<Digest>, checkpoints: seq<StoredLevel>, totalLevels: nat)

  /** `hash_pair` for a given hash. */
  function Pair(h: Hash): (Digest, Digest) -> Digest {
    (left: Digest, right: Digest) => HashPair(h, left, right)
  }

  /** Any 64 bytes hash like the pair of their halves, the left half first. */
  lemma PairHashesHalves(h: Hash, b: Bytes)
    requires |b| == 64
    ensures Pair(h)(b[..32], b[32..]) == h(b)
  {
    assert b[..32] + b[32..] == b;
  }

  function Leaves(h: Hash, chunks: seq<Digest>): (leaves: seq<Digest>)
    ensures |leaves| == |chunks|
    ensures forall i :: 0 <= i < |chunks| ==> leaves[i] == h(chunks[i])
  {
    seq(|chunks|, i requires 0 <= i < |chunks| => h(chunks[i]))
  }

  /** What an index promises about a model with these canonical chunks. */
  ghost predicate Valid(idx: Index, h: Hash, chunks: seq<Digest>) {
    && idx.nChunks == |chunks| > 0
    && Covers(idx.gguf, idx.table, chunks)
    && ValidTree(idx, Pair(h), Leaves(h, chunks))
  }

  ghost predicate ValidTree(idx: Index, hp: (Digest, Digest) -> Digest, leaves: seq<Digest>) {
    && idx.nChunks == |leaves| > 0
    && ValidLayout(idx.checkpoints, |leaves|)
    && idx.totalLevels == Depth(|leaves|) + 1
    && CF.HoldsLevels(hp, leaves, idx.tree, idx.checkpoints)
  }

  // ---------- build ----------

  /** The chunks of one tensor, hashed in order. */
  method HashTensor(h: Hash, gguf: Bytes, t: Tensor, ghost before: seq<Digest>, written: seq<Digest>, buffer: seq<Digest>)
    returns (written': seq<Digest>, buffer': seq<Digest>)
    requires t.offset + t.size <= |gguf|
    requires |buffer| < 64 && CF.FirstPass(Pair(h), Leaves(h, before), written, buffer)
    ensures |buffer'| < 64 && CF.FirstPass(Pair(h), Leaves(h, before + TensorChunks(gguf, t)), written', buffer')
  {
    written', buffer' := written, buffer;
    ghost var mine := TensorChunks(gguf, t);
    assert before + mine[..0] == before;
    for c := 0 to t.Full()
      invariant |buffer'| < 64 && CF.FirstPass(Pair(h), Leaves(h, before + mine[..c]), written', buffer')
    {
      var leaf := h(Nodes.ReadNode(gguf, t.offset + c * 32));
      LeavesPush(h, before, mine, c);
      written', buffer' := CF.PushLeaf(Pair(h), Leaves(h, before + mine[..c]), written', buffer', leaf);
    }
    assert mine[..t.Full()] == mine;
  }

  lemma LeavesPush(h: Hash, before: seq<Digest>, mine: seq<Digest>, c: nat)
    requires c < |mine|
    ensures Leaves(h, before + mine[..c + 1]) == Leaves(h, before + mine[..c]) + [h(mine[c])]
  {
    assert mine[..c + 1] == mine[..c] + [mine[c]];
  }

  /** First pass over the model: the chunk table, the chunk count, and the file holding level 6. */
  method WriteFirstLevel(h: Hash, gguf: Bytes, tensors: seq<Tensor>)
    returns (table: seq<Entry>, nChunks: nat, written: seq<Digest>)
    requires InFile(gguf, tensors)
    ensures (table, nChunks) == TableOf(tensors) && nChunks == |Canon(gguf, tensors)|
    ensures written == Ups(Pair(h), Leaves(h, Canon(gguf, tensors)), INTERVAL)
  {
    table, nChunks, written := [], 0, [];
    var buffer: seq<Digest> := [];
    for k := 0 to |tensors|
      invariant (table, nChunks) == TableTo(tensors, k) && nChunks == |ChunksOf(gguf, tensors, k)|
      invariant |buffer| < 64 && CF.FirstPass(Pair(h), Leaves(h, ChunksOf(gguf, tensors, k)), written, buffer)
    {
      written, buffer := HashTensor(h, gguf, tensors[k], ChunksOf(gguf, tensors, k), written, buffer);
      if tensors[k].Full() > 0 {
        table := table + [Entry(nChunks, tensors[k].offset)];
      }
      nChunks := nChunks + tensors[k].Full();
    }
    written := CF.FlushTail(Pair(h), Leaves(h, Canon(gguf, tensors)), written, buffer);
  }

  /** Everything the build leaves behind: a valid index, a file that ends with the root, and which root it is. */
  ghost predicate BuiltFrom(idx: Index, h: Hash, gguf: Bytes, tensors: seq<Tensor>)
    requires InFile(gguf, tensors)
  {
    var chunks := Canon(gguf, tensors);
    && Valid(idx, h, chunks) && idx.gguf == gguf && idx.table == TableOf(tensors).0
    && SizeFits(idx.checkpoints, idx.tree) && idx.root == idx.tree[|idx.tree| - 1]
    && idx.root == CF.BuiltRoot(Pair(h), Leaves(h, chunks))
  }

  /** Builds the index of a model; a model without a single full chunk is refused. */
  method BuildFromGguf(h: Hash, gguf: Bytes, tensors: seq<Tensor>) returns (idx: Option<Index>)
    requires InFile(gguf, tensors)
    ensures idx.None? <==> |Canon(gguf, tensors)| == 0
    ensures idx.None? <==> forall k :: 0 <= k < |tensors| ==> tensors[k].size < 32
    ensures idx.Some? ==> BuiltFrom(idx.value, h, gguf, tensors)
  {
    ChunkCount(gguf, tensors, |tensors|);
    var table, nChunks, written := WriteFirstLevel(h, gguf, tensors);
    if nChunks == 0 {
      return None;
    }
    TableCovers(gguf, tensors, |tensors|);
    ghost var leaves := Leaves(h, Canon(gguf, tensors));
    var tree, checkpoints, totalLevels, root := CF.FinalizeCheckpointUpper(Pair(h), written, nChunks, leaves);
    idx := Some(Index(nChunks, root, gguf, table, tree, checkpoints, totalLevels));
  }

  /** The file ends right after the root. */
  predicate SizeFits(cps: seq<StoredLevel>, tree: seq<Digest>) {
    cps != [] && |tree| == cps[|cps| - 1].offset + 1
  }

  ghost predicate Reopened(idx: Index, gguf: Bytes, tensors: seq<Tensor>, tree: seq<Digest>) {
    var (table, n) := TableOf(tensors);
    && n > 0 && ValidLayout(idx.checkpoints, n) && SizeFits(idx.checkpoints, tree)
    && idx == Index(n, tree[|tree| - 1], gguf, table, tree, idx.checkpoints, Depth(n) + 1)
  }

  /** Reuse of a checkpoint file from an earlier run; only its size is checked. */
  method OpenExistingTree(gguf: Bytes, tensors: seq<Tensor>, tree: seq<Digest>) returns (idx: Option<Index>)
    requires InFile(gguf, tensors)
    ensures idx.Some? ==> Reopened(idx.value, gguf, tensors, tree)
    ensures idx.None? ==> TableOf(tensors).1 == 0 || forall cps | ValidLayout(cps, TableOf(tensors).1) :: !SizeFits(cps, tree)
  {
    var (table, nChunks) := TableOf(tensors);
    if nChunks == 0 {
      return None;
    }
    var checkpoints, totalLevels := ComputeCheckpointOffsets(nChunks);
    if !SizeFits(checkpoints, tree) {
      forall cps | ValidLayout(cps, nChunks)
        ensures !SizeFits(cps, tree)
      {
        LayoutUnique(cps, checkpoints, nChunks, |cps| - 1);
      }
      return None;
    }
    idx := Some(Index(nChunks, tree[checkpoints[|checkpoints| - 1].offset], gguf, table, tree, checkpoints, totalLevels));
  }

  lemma LayoutsEqual(a: seq<StoredLevel>, b: seq<StoredLevel>, n: nat)
    requires n > 0 && ValidLayout(a, n) && ValidLayout(b, n)
    ensures a == b
  {
    LayoutUnique(a, b, n, 0);
    forall i | 0 <= i < |a|
      ensures a[i] == b[i]
    {
      LayoutUnique(a, b, n, i);
    }
  }

  /** A restart gets back exactly the index that was built: the size test accepts the file and nothing is lost. */
  method BuildThenReopen(h: Hash, gguf: Bytes, tensors: seq<Tensor>) returns (built: Option<Index>, reopened: Option<Index>)
    requires InFile(gguf, tensors) && |Canon(gguf, tensors)| > 0
    ensures built.Some? && BuiltFrom(built.value, h, gguf, tensors) && reopened == built
  {
    built := BuildFromGguf(h, gguf, tensors);
    TableCovers(gguf, tensors, |tensors|);
    reopened := OpenExistingTree(gguf, tensors, built.value.tree);
    if reopened.Some? {
      LayoutsEqual(built.value.checkpoints, reopened.value.checkpoints, built.value.nChunks);
    }
  }

  // ---------- queries ----------

  function ReadChunk(idx: Index, ghost chunks: seq<Digest>, off: nat): (chunk: Digest)
    requires Covers(idx.gguf, idx.table, chunks) && off < |chunks|
    ensures chunk == chunks[off]
  {
    ReadChunkBytesIsCanonical(idx.gguf, idx.table, chunks, off);
    ReadChunkBytes(idx.gguf, idx.table, off)
  }

  /** The leaves of chunks `start..end`, hashed on the spot. */
  method HashChunks(idx: Index, h: Hash, ghost chunks: seq<Digest>, start: nat, end: nat) returns (nodes: seq<Digest>)
    requires Covers(idx.gguf, idx.table, chunks) && start <= end <= |chunks|
    ensures nodes == Leaves(h, chunks)[start..end]
  {
    nodes := [];
    for i := start to end
      invariant nodes == Leaves(h, chunks)[start..i]
    {
      nodes := nodes + [h(ReadChunk(idx, chunks, i))];
    }
  }

  /**
   Node of the level `rounds` above `srcLevel` whose first source node is `start`, folded from the in-range source
   nodes: chunks hashed on the spot, or a stored checkpoint. A start out of range yields the all-zero guard value.
   */
  method ComputeSubtreeHash(idx: Index, h: Hash, ghost chunks: seq<Digest>, start: nat, rounds: nat, srcLevel: nat)
    returns (node: Digest)
    requires Valid(idx, h, chunks)
    requires srcLevel == 0 || (srcLevel < Depth(|chunks|) && srcLevel % INTERVAL == 0)
    ensures start >= CountAt(|chunks|, srcLevel) ==> node == seq(32, _ => 0)
    ensures start < CountAt(|chunks|, srcLevel) ==>
      var batch := Slice(Ups(Pair(h), Leaves(h, chunks), srcLevel), start, Shl(1, rounds));
      |Ups(Pair(h), batch, rounds)| > 0 && node == Ups(Pair(h), batch, rounds)[0]
  {
    ShlPositive(rounds);
    var nodes: seq<Digest>;
    if srcLevel == 0 {
      if start >= idx.nChunks {
        return seq(32, _ => 0);
      }
      nodes := HashChunks(idx, h, chunks, start, Min(start + Shl(1, rounds), idx.nChunks));
      assert nodes == Slice(Leaves(h, chunks), start, Shl(1, rounds));
    } else {
      var i := CF.FindCheckpoint(idx.checkpoints, |chunks|, srcLevel);
      if start >= idx.checkpoints[i].count {
        return seq(32, _ => 0);
      }
      nodes := ReadCheckpoint(idx, Pair(h), Leaves(h, chunks), i, start, Shl(1, rounds));
    }
    node := FoldLevels(Pair(h), nodes, rounds);
  }

  /** The in-range nodes `start..` of checkpoint `i`, read from the file. */
  method ReadCheckpoint(idx: Index, ghost hp: (Digest, Digest) -> Digest, ghost leaves: seq<Digest>, i: nat, start: nat, span: nat)
    returns (nodes: seq<Digest>)
    requires ValidTree(idx, hp, leaves) && i < |idx.checkpoints| && idx.checkpoints[i].level >= INTERVAL
    requires start < idx.checkpoints[i].count
    ensures start < CountAt(|leaves|, idx.checkpoints[i].level)
    ensures nodes == Slice(Ups(hp, leaves, idx.checkpoints[i].level), start, span)
  {
    var cp := idx.checkpoints[i];
    nodes := CF.ReadSlice(idx.tree, cp.offset, cp.count, start, span, Ups(hp, leaves, cp.level));
  }

  /** Node `i` of level `level`, obtained the way the source obtains a sibling. */
  method NodeAt(idx: Index, h: Hash, ghost chunks: seq<Digest>, level: nat, i: nat) returns (node: Digest)
    requires Valid(idx, h, chunks) && level < Depth(|chunks|) && i < CountAt(|chunks|, level)
    ensures node == Ups(Pair(h), Leaves(h, chunks), level)[i]
  {
    ghost var leaves := Leaves(h, chunks);
    var isStored := level > 0 && level % INTERVAL == 0;
    if isStored {
      var k := CF.FindCheckpoint(idx.checkpoints, |leaves|, level);
      var nodes := ReadCheckpoint(idx, Pair(h), leaves, k, i, 1);
      node := nodes[0];
    } else {
      var srcLevel := CF.SourceLevel(level);
      var start := Shl(i, level - srcLevel);
      CF.NodeFromSource(Pair(h), leaves, srcLevel, level - srcLevel, i, start);
      node := ComputeSubtreeHash(idx, h, chunks, start, level - srcLevel, srcLevel);
    }
  }

  /** Sibling of node `i`; out of range, the node itself. */
  method SiblingAt(idx: Index, h: Hash, ghost chunks: seq<Digest>, level: nat, i: nat) returns (node: Digest)
    requires Valid(idx, h, chunks) && level < Depth(|chunks|) && i < CountAt(|chunks|, level)
    ensures node == Sibling(Ups(Pair(h), Leaves(h, chunks), level), i)
  {
    var sibIdx: nat := if i % 2 == 0 then i + 1 else i - 1;
    var nodeCount := CF.CountAtLevel(idx.nChunks, level);
    node := NodeAt(idx, h, chunks, level, if sibIdx < nodeCount then sibIdx else i);
  }

  /** The path assembled from checkpoint reads and recomputed subtrees is the dense tree's path. */
  method MerklePath(idx: Index, h: Hash, ghost chunks: seq<Digest>, off: nat) returns (path: seq<Digest>)
    requires Valid(idx, h, chunks) && off < idx.nChunks
    ensures path == Proof(Pair(h), Leaves(h, chunks), off)
  {
    ghost var leaves := Leaves(h, chunks);
    var depth: nat := idx.totalLevels - 1;
    path := [];
    var i: nat := off;
    for level := 0 to depth
      invariant CF.OnPath(Pair(h), leaves, off, level, i, path)
    {
      var node := SiblingAt(idx, h, chunks, level, i);
      CF.PathStep(Pair(h), leaves, off, level, i, path, node);
      path := path + [node];
      i := i / 2;
    }
    CF.PathEnd(Pair(h), leaves, off, i, path);
  }

  // ---------- where the built root is the canonical root ----------

  /** Up to 32 leaves the stored root is the canonical one paired with itself until level six. */
  lemma SmallRootIsCarried(h: Hash, leaves: seq<Digest>)
    requires 0 < |leaves| <= 32
    ensures var d := Depth(|leaves|);
            d < INTERVAL && |Ups(Pair(h), [Root(Pair(h), leaves)], INTERVAL - d)| > 0
            && CF.BuiltRoot(Pair(h), leaves) == Ups(Pair(h), [Root(Pair(h), leaves)], INTERVAL - d)[0]
  {
    var d := Depth(|leaves|);
    CF.DeepEnough(|leaves|);
    CountAtDepth(|leaves|);
    UpsAdd(Pair(h), leaves, d, INTERVAL - d);
    assert Ups(Pair(h), leaves, d) == [Root(Pair(h), leaves)];
    CountAtPositive(1, INTERVAL - d);
  }

  /** A hash that counts how many levels were folded. */
  function CountingHash(bytes: Bytes): Digest {
    Tag(if |bytes| == 64 then bytes[0] + 1 else 0)
  }

  function Tag(n: bv8): Digest {
    [n] + seq(31, _ => 0)
  }

  function Count(r: nat): bv8 {
    if r == 0 then 0 else Count(r - 1) + 1
  }

  lemma {:induction false} CountingUps(level: seq<Digest>, k: nat, r: nat)
    requires forall i :: 0 <= i < |level| ==> level[i] == Tag(Count(k))
    ensures forall i :: 0 <= i < CountAt(|level|, r) ==> Ups(Pair(CountingHash), level, r)[i] == Tag(Count(k + r))
    decreases r
  {
    if r > 0 {
      var up := Up(Pair(CountingHash), level);
      forall i | 0 <= i < |up|
        ensures up[i] == Tag(Count(k + 1))
      {
        var preimage := Join(level[2 * i], RightChild(level, 2 * i));
        assert preimage[0] == level[2 * i][0] == Count(k);
      }
      CountingUps(up, k + 1, r - 1);
    }
  }

  lemma CountSix(d: nat)
    requires d < 6
    ensures Tag(Count(d)) != Tag(Count(6))
  {
    assert Count(1) == 1 && Count(2) == 2 && Count(3) == 3 && Count(4) == 4 && Count(5) == 5 && Count(6) == 6;
    assert Tag(Count(d))[0] == Count(d) && Tag(Count(6))[0] == Count(6);
    assert d == 0 || d == 1 || d == 2 || d == 3 || d == 4 || d == 5;
  }

  /** Some hash tells the two roots of a small tree apart. */
  lemma SmallRootsDiffer(n: nat, leaves: seq<Digest>)
    requires 0 < n <= 32 && leaves == seq(n, _ => Tag(0))
    ensures CF.BuiltRoot(Pair(CountingHash), leaves) != Root(Pair(CountingHash), leaves)
  {
    CF.DeepEnough(n);
    CountAtDepth(n);
    CountAtPositive(n, INTERVAL);
    CountingUps(leaves, 0, Depth(n));
    CountingUps(leaves, 0, INTERVAL);
    CountSix(Depth(n));
  }

  /** The stored root is the canonical root for every hash and every leaf list of a size exactly from 33 leaves on. */
  lemma BuiltRootIsCanonicalIff(n: nat)
    requires n > 0
    ensures n > 32 <==> forall h: Hash, leaves: seq<Digest> | |leaves| == n :: CF.BuiltRoot(Pair(h), leaves) == Root(Pair(h), leaves)
  {
    if n <= 32 {
      SmallRootsDiffer(n, seq(n, _ => Tag(0)));
    }
  }
}
