/**
 Writing and reading the checkpoint file of `src/pom.rs`, as a sequence of nodes: the first pass over the leaves,
 the upper checkpoints, and the nodes that have to be recomputed.
 */
module CheckpointFile {
  import opened DenseTree
  import opened SparseTree
  import opened Numbers

  /** The file holds `nodes` from position `offset` on. */
  ghost predicate Stores<T>(file: seq<T>, offset: nat, nodes: seq<T>) {
    offset + |nodes| <= |file| && file[offset..offset + |nodes|] == nodes
  }

  /** Every checkpoint at level six or above holds the dense tree's nodes of that level. */
  ghost predicate HoldsLevels<T>(hp: (T, T) -> T, leaves: seq<T>, file: seq<T>, cps: seq<StoredLevel>) {
    forall i :: 0 <= i < |cps| && cps[i].level >= INTERVAL ==> Stores(file, cps[i].offset, Ups(hp, leaves, cps[i].level))
  }

  // ---------- first pass ----------

  /** Level-6 node of the `i`-th 64 leaves. */
  ghost function Batch64<T>(hp: (T, T) -> T, leaves: seq<T>, i: nat): T
    requires 64 * i < |leaves|
  {
    var batch := Slice(leaves, 64 * i, 64);
    CountAtPositive(|batch|, INTERVAL);
    Ups(hp, batch, INTERVAL)[0]
  }

  /** After some full batches: their level-6 nodes are in the file, the other leaves are in the buffer. */
  ghost predicate FirstPass<T>(hp: (T, T) -> T, leaves: seq<T>, written: seq<T>, buffer: seq<T>) {
    && |leaves| == 64 * |written| + |buffer| && buffer == leaves[64 * |written|..]
    && forall i :: 0 <= i < |written| ==> written[i] == Batch64(hp, leaves, i)
  }

  lemma FirstPassPush<T>(hp: (T, T) -> T, leaves: seq<T>, written: seq<T>, buffer: seq<T>, leaf: T)
    requires FirstPass(hp, leaves, written, buffer)
    ensures FirstPass(hp, leaves + [leaf], written, buffer + [leaf])
  {
    forall i | 0 <= i < |written|
      ensures written[i] == Batch64(hp, leaves + [leaf], i)
    {
      assert Slice(leaves + [leaf], 64 * i, 64) == Slice(leaves, 64 * i, 64);
    }
  }

  /** One leaf into the buffer; a full buffer becomes a level-6 node at the end of the file. */
  method PushLeaf<T>(hp: (T, T) -> T, ghost leaves: seq<T>, written: seq<T>, buffer: seq<T>, leaf: T)
    returns (written': seq<T>, buffer': seq<T>)
    requires |buffer| < 64 && FirstPass(hp, leaves, written, buffer)
    ensures |buffer'| < 64 && FirstPass(hp, leaves + [leaf], written', buffer')
  {
    FirstPassPush(hp, leaves, written, buffer, leaf);
    written', buffer' := written, buffer + [leaf];
    if |buffer'| == 64 {
      var node := FoldLevels(hp, buffer', INTERVAL);
      assert Slice(leaves + [leaf], 64 * |written|, 64) == buffer';
      written', buffer' := written + [node], [];
    }
  }

  /** The short last batch is carried up by itself; nothing is padded. The file is then dense level 6. */
  method FlushTail<T>(hp: (T, T) -> T, ghost leaves: seq<T>, written: seq<T>, buffer: seq<T>) returns (file: seq<T>)
    requires |buffer| < 64 && FirstPass(hp, leaves, written, buffer)
    ensures file == Ups(hp, leaves, INTERVAL)
  {
    file := written;
    if buffer != [] {
      var node := FoldLevels(hp, buffer, INTERVAL);
      assert Slice(leaves, 64 * |written|, 64) == buffer;
      file := file + [node];
    }
    FirstPassIsLevelSix(hp, leaves, file);
  }

  lemma ShlSix(i: nat)
    ensures Shl(i, INTERVAL) == 64 * i
  {
    assert Shl(i, 1) == 2 * i;
    assert Shl(i, 3) == 2 * Shl(i, 2) == 4 * Shl(i, 1);
    assert Shl(i, 5) == 2 * Shl(i, 4) == 4 * Shl(i, 3);
  }

  lemma FirstPassIsLevelSix<T>(hp: (T, T) -> T, leaves: seq<T>, file: seq<T>)
    requires 64 * (|file| - 1) < |leaves| <= 64 * |file|
    requires forall i :: 0 <= i < |file| ==> file[i] == Batch64(hp, leaves, i)
    ensures file == Ups(hp, leaves, INTERVAL)
  {
    var n := |file|;
    ShlSix(n);
    CountAtIndex(|leaves|, INTERVAL, n);
    if n > 0 {
      ShlSix(n - 1);
      CountAtIndex(|leaves|, INTERVAL, n - 1);
    }
    forall i | 0 <= i < n
      ensures file[i] == Ups(hp, leaves, INTERVAL)[i]
    {
      BatchIsNode(hp, leaves, INTERVAL, i);
      ShlSix(i);
      ShlSix(1);
    }
  }

  // ---------- upper checkpoints ----------

  ghost function BatchStart(n: nat, rounds: nat, i: nat): nat {
    if Shl(i, rounds) < n then Shl(i, rounds) else n
  }

  lemma BatchAdvance<T>(hp: (T, T) -> T, prev: seq<T>, rounds: nat, i: nat, at: nat, take: nat)
    requires i < CountAt(|prev|, rounds) && at == BatchStart(|prev|, rounds, i)
    requires at < |prev| ==> take == Min(Shl(1, rounds), |prev| - at)
    ensures at < |prev| && at + take == BatchStart(|prev|, rounds, i + 1) && take > 0
    ensures at + take < |prev| <==> i + 1 < CountAt(|prev|, rounds)
    ensures |Ups(hp, prev[at..at + take], rounds)| > 0
    ensures Ups(hp, prev[at..at + take], rounds)[0] == Ups(hp, prev, rounds)[i]
  {
    CountAtIndex(|prev|, rounds, i);
    CountAtIndex(|prev|, rounds, i + 1);
    ShlAdd(i, 1, rounds);
    ShlPositive(rounds);
    BatchIsNode(hp, prev, rounds, i);
    assert prev[at..at + take] == Slice(prev, at, Shl(1, rounds));
  }

  lemma StoredSlice<T>(file: seq<T>, offset: nat, nodes: seq<T>, start: nat, take: nat)
    requires Stores(file, offset, nodes) && start + take <= |nodes|
    ensures file[offset + start..offset + start + take] == nodes[start..start + take]
  {
    var part, whole := file[offset + start..offset + start + take], nodes[start..start + take];
    forall i | 0 <= i < take
      ensures part[i] == whole[i]
    {
      assert file[offset..offset + |nodes|][start + i] == nodes[start + i];
    }
  }

  /**
   One checkpoint: the previous stored level, read back from the file in batches of `2^rounds`, each folded
   exactly `rounds` levels and appended.
   */
  method WriteCheckpoint<T>(hp: (T, T) -> T, file: seq<T>, prevOffset: nat, prevCount: nat, rounds: nat, ghost prev: seq<T>)
    returns (grown: seq<T>)
    requires |prev| == prevCount && Stores(file, prevOffset, prev)
    ensures grown == file + Ups(hp, prev, rounds)
  {
    var batchSize := Shl(1, rounds);
    ghost var next := Ups(hp, prev, rounds);
    grown := file;
    var readIdx: nat := 0;
    ghost var done: nat := 0;
    CountAtIndex(prevCount, rounds, 0);
    ShlZero(rounds);
    while readIdx < prevCount
      invariant readIdx == BatchStart(prevCount, rounds, done) && done <= |next|
      invariant readIdx < prevCount <==> done < |next|
      invariant grown == file + next[..done]
      decreases prevCount - readIdx
    {
      var take := Min(batchSize, prevCount - readIdx);
      BatchAdvance(hp, prev, rounds, done, readIdx, take);
      var batch := ReadNodes(file, prevOffset + readIdx, take);
      StoredSlice(file, prevOffset, prev, readIdx, take);
      var parent := FoldLevels(hp, batch, rounds);
      grown := grown + [parent];
      readIdx := readIdx + take;
      done := done + 1;
    }
  }

  /** The in-range nodes from `start` on of a stored level, read from the file. */
  method ReadSlice<T>(file: seq<T>, offset: nat, count: nat, start: nat, span: nat, ghost nodes: seq<T>) returns (batch: seq<T>)
    requires Stores(file, offset, nodes) && start < count == |nodes|
    ensures batch == Slice(nodes, start, span)
  {
    var take := Min(span, count - start);
    batch := ReadNodes(file, offset + start, take);
    StoredSlice(file, offset, nodes, start, take);
  }

  /** Positional reads of `take` nodes. */
  method ReadNodes<T>(file: seq<T>, offset: nat, take: nat) returns (batch: seq<T>)
    requires offset + take <= |file|
    ensures batch == file[offset..offset + take]
  {
    batch := [];
    for i := 0 to take
      invariant batch == file[offset..offset + i]
    {
      batch := batch + [file[offset + i]];
    }
  }

  /** The first `m` checkpoints are in the file, and the file ends with the last of them. */
  ghost predicate HoldsFirst<T>(hp: (T, T) -> T, leaves: seq<T>, file: seq<T>, cps: seq<StoredLevel>, m: nat) {
    && 0 < m <= |cps|
    && |file| == cps[m - 1].offset + cps[m - 1].count
    && forall i :: 0 <= i < m ==> Stores(file, cps[i].offset, Ups(hp, leaves, cps[i].level))
  }

  lemma HoldsNext<T>(hp: (T, T) -> T, leaves: seq<T>, file: seq<T>, top: seq<T>, cps: seq<StoredLevel>, m: nat)
    requires HoldsFirst(hp, leaves, file, cps, m) && m < |cps|
    requires cps[m].offset == |file| && cps[m].count == |top| && top == Ups(hp, leaves, cps[m].level)
    ensures HoldsFirst(hp, leaves, file + top, cps, m + 1)
  {
    StoresTail(file, top);
    forall i | 0 <= i < m
      ensures Stores(file + top, cps[i].offset, Ups(hp, leaves, cps[i].level))
    {
      StoresGrow(file, top, cps[i].offset, Ups(hp, leaves, cps[i].level));
    }
  }

  lemma NextLevels(cps: seq<StoredLevel>, n: nat, m: nat)
    requires n > 0 && ValidLayout(cps, n) && 0 < m < |cps|
    ensures INTERVAL <= cps[m - 1].level < cps[m].level <= cps[m - 1].level + INTERVAL
    ensures cps[m].offset == cps[m - 1].offset + cps[m - 1].count && cps[m].count == CountAt(n, cps[m].level)
  {
    LayoutLength(cps, n);
    assert Follows(cps, m);
  }

  /** Folding the previous checkpoint by the level difference gives the next one. */
  lemma NextCheckpoint<T>(hp: (T, T) -> T, leaves: seq<T>, cps: seq<StoredLevel>, m: nat)
    requires |leaves| > 0 && ValidLayout(cps, |leaves|) && 0 < m < |cps|
    ensures INTERVAL <= cps[m - 1].level < cps[m].level <= cps[m - 1].level + INTERVAL
    ensures cps[m].offset == cps[m - 1].offset + cps[m - 1].count && cps[m].count == CountAt(|leaves|, cps[m].level)
    ensures Ups(hp, leaves, cps[m].level) == Ups(hp, Ups(hp, leaves, cps[m - 1].level), cps[m].level - cps[m - 1].level)
  {
    NextLevels(cps, |leaves|, m);
    FoldDifference(hp, leaves, cps[m - 1].level, cps[m].level);
  }

  lemma FoldDifference<T>(hp: (T, T) -> T, leaves: seq<T>, a: nat, b: nat)
    requires a <= b
    ensures Ups(hp, leaves, b) == Ups(hp, Ups(hp, leaves, a), b - a)
  {
    UpsAdd(hp, leaves, a, b - a);
  }

  lemma StoresGrow<T>(file: seq<T>, more: seq<T>, offset: nat, nodes: seq<T>)
    requires Stores(file, offset, nodes)
    ensures Stores(file + more, offset, nodes)
  {
    assert (file + more)[offset..offset + |nodes|] == file[offset..offset + |nodes|];
  }

  lemma StoresTail<T>(file: seq<T>, nodes: seq<T>)
    ensures Stores(file + nodes, |file|, nodes)
  {
  }

  /** From 33 leaves on the tree is at least six levels deep. */
  lemma DeepEnough(n: nat)
    requires n > 0
    ensures n > 32 <==> Depth(n) >= INTERVAL
  {
    assert Shl(1, 5) == 32;
    CountAtIndex(n, 5, 1);
    CountAtDepth(n);
    if Depth(n) < INTERVAL {
      CountAtCarry(n, Depth(n), 5);
    }
  }

  lemma {:induction false} CountAtCarry(n: nat, d: nat, r: nat)
    requires CountAt(n, d) == 1 && d <= r
    ensures CountAt(n, r) == 1
    decreases r
  {
    if d < r {
      CountAtCarry(n, d, r - 1);
      CountAtAdd(n, r - 1, 1);
    }
  }

  /** The root of a small tree carried up, paired with itself, to level six. */
  ghost function CarriedRoot<T>(hp: (T, T) -> T, leaves: seq<T>): T
    requires |leaves| > 0
  {
    CountAtPositive(|leaves|, INTERVAL);
    Ups(hp, leaves, INTERVAL)[0]
  }

  /** The root the build stores, for any number of leaves. */
  ghost function BuiltRoot<T>(hp: (T, T) -> T, leaves: seq<T>): T
    requires |leaves| > 0
  {
    if |leaves| > 32 then Root(hp, leaves) else CarriedRoot(hp, leaves)
  }

  /** All levels are in the file; a small tree has the root alone, where level six was written. */
  ghost predicate Appended<T>(hp: (T, T) -> T, leaves: seq<T>, file: seq<T>, cps: seq<StoredLevel>) {
    if |leaves| > 32 then HoldsFirst(hp, leaves, file, cps, |cps|) else |cps| == 1 && file == Ups(hp, leaves, INTERVAL)
  }

  /** One upper level after another, each folded from the one before it in the file. */
  method AppendLevels<T>(hp: (T, T) -> T, written: seq<T>, ghost leaves: seq<T>, cps: seq<StoredLevel>) returns (file: seq<T>)
    requires |leaves| > 0 && ValidLayout(cps, |leaves|) && written == Ups(hp, leaves, INTERVAL)
    ensures Appended(hp, leaves, file, cps)
  {
    file := written;
    DeepEnough(|leaves|);
    LayoutLength(cps, |leaves|);
    for m := 1 to |cps|
      invariant |leaves| > 32 ==> HoldsFirst(hp, leaves, file, cps, m)
      invariant |leaves| <= 32 ==> file == written && |cps| == 1
    {
      var cp, prev := cps[m], cps[m - 1];
      NextCheckpoint(hp, leaves, cps, m);
      var grown := WriteCheckpoint(hp, file, prev.offset, prev.count, cp.level - prev.level, Ups(hp, leaves, prev.level));
      HoldsNext(hp, leaves, file, Ups(hp, leaves, cp.level), cps, m);
      file := grown;
    }
  }

  lemma AppendedIsComplete<T>(hp: (T, T) -> T, leaves: seq<T>, file: seq<T>, cps: seq<StoredLevel>)
    requires |leaves| > 0 && ValidLayout(cps, |leaves|) && Appended(hp, leaves, file, cps)
    ensures cps != [] && HoldsLevels(hp, leaves, file, cps) && |file| == cps[|cps| - 1].offset + 1
    ensures file[|file| - 1] == BuiltRoot(hp, leaves)
  {
    DeepEnough(|leaves|);
    CountAtDepth(|leaves|);
    LayoutLength(cps, |leaves|);
    if |leaves| <= 32 {
      CountAtCarry(|leaves|, Depth(|leaves|), INTERVAL);
    } else {
      assert Stores(file, cps[|cps| - 1].offset, Ups(hp, leaves, Depth(|leaves|)));
    }
  }

  /**
   Upper checkpoints, and the root read back from the file. Every stored level is a dense level; from 33 leaves on
   the root is the dense root.
   */
  method FinalizeCheckpointUpper<T>(hp: (T, T) -> T, written: seq<T>, nLeaves: nat, ghost leaves: seq<T>)
    returns (file: seq<T>, checkpoints: seq<StoredLevel>, totalLevels: nat, root: T)
    requires |leaves| == nLeaves > 0 && written == Ups(hp, leaves, INTERVAL)
    ensures ValidLayout(checkpoints, nLeaves) && totalLevels == Depth(nLeaves) + 1
    ensures HoldsLevels(hp, leaves, file, checkpoints)
    ensures |file| == checkpoints[|checkpoints| - 1].offset + 1 && root == file[|file| - 1]
    ensures root == BuiltRoot(hp, leaves)
  {
    checkpoints, totalLevels := ComputeCheckpointOffsets(nLeaves);
    file := AppendLevels(hp, written, leaves, checkpoints);
    AppendedIsComplete(hp, leaves, file, checkpoints);
    root := file[checkpoints[|checkpoints| - 1].offset];
  }

  // ---------- recomputed nodes ----------

  /** The nearest level at or below `level` that is stored, or the leaves. */
  function SourceLevel(level: nat): (src: nat)
    ensures src <= level && src % INTERVAL == 0
  {
    (level / INTERVAL) * INTERVAL
  }

  /** Nodes are recomputed from the nearest level at or below theirs that can be stored. */
  lemma SourceIsNearest(level: nat)
    ensures SourceLevel(level) <= level < SourceLevel(level) + 6 && SourceLevel(level) % 6 == 0
  {
  }

  /** Position of the checkpoint stored for `level`. */
  method FindCheckpoint(cps: seq<StoredLevel>, ghost n: nat, level: nat) returns (i: nat)
    requires n > 0 && ValidLayout(cps, n) && 0 < level < Depth(n) && level % INTERVAL == 0
    ensures i < |cps| && cps[i].level == level && cps[i].count == CountAt(n, level)
  {
    LayoutLength(cps, n);
    ghost var at := level / INTERVAL - 1;
    assert at < |cps| - 1 && cps[at].level == level;
    i := 0;
    while cps[i].level != level
      invariant i <= at
    {
      i := i + 1;
    }
  }

  method CountAtLevel(n: nat, level: nat) returns (count: nat)
    ensures count == CountAt(n, level)
  {
    count := n;
    for k := 0 to level
      invariant CountAt(count, level - k) == CountAt(n, level)
    {
      count := Half(count);
    }
  }

  lemma NodeFromSource<T>(hp: (T, T) -> T, leaves: seq<T>, srcLevel: nat, rounds: nat, i: nat, start: nat)
    requires i < CountAt(|leaves|, srcLevel + rounds) && start == Shl(i, rounds)
    ensures start < CountAt(|leaves|, srcLevel)
    ensures var batch := Slice(Ups(hp, leaves, srcLevel), start, Shl(1, rounds));
            |Ups(hp, batch, rounds)| > 0 && Ups(hp, batch, rounds)[0] == Ups(hp, leaves, srcLevel + rounds)[i]
  {
    CountAtAdd(|leaves|, srcLevel, rounds);
    UpsAdd(hp, leaves, srcLevel, rounds);
    BatchIsNode(hp, Ups(hp, leaves, srcLevel), rounds, i);
  }

  /** `path` leads from leaf `off` to node `i` of level `level`. */
  ghost predicate OnPath<T>(hp: (T, T) -> T, leaves: seq<T>, off: nat, level: nat, i: nat, path: seq<T>) {
    && off < |leaves| && i < CountAt(|leaves|, level)
    && path + Proof(hp, Ups(hp, leaves, level), i) == Proof(hp, leaves, off)
  }

  lemma PathStep<T>(hp: (T, T) -> T, leaves: seq<T>, off: nat, level: nat, i: nat, path: seq<T>, node: T)
    requires OnPath(hp, leaves, off, level, i, path) && level < Depth(|leaves|)
    requires node == Sibling(Ups(hp, leaves, level), i)
    ensures OnPath(hp, leaves, off, level + 1, i / 2, path + [node])
  {
    CountAtDepth(|leaves|);
    UpsAdd(hp, leaves, level, 1);
    CountAtAdd(|leaves|, level, 1);
    var here, rest := Ups(hp, leaves, level), Proof(hp, Ups(hp, leaves, level + 1), i / 2);
    assert Proof(hp, here, i) == [node] + rest;
    assert path + ([node] + rest) == (path + [node]) + rest;
  }

  lemma PathEnd<T>(hp: (T, T) -> T, leaves: seq<T>, off: nat, i: nat, path: seq<T>)
    requires |leaves| > 0 && OnPath(hp, leaves, off, Depth(|leaves|), i, path)
    ensures path == Proof(hp, leaves, off)
  {
    CountAtDepth(|leaves|);
  }
}
