/**
 The sparse checkpoint tree of `src/pom.rs`: only every sixth level and the root are on disk, everything else
 is recomputed. Folding a level batch by batch must land on the nodes of the dense tree.
 */
module SparseTree {
  import opened DenseTree

  const INTERVAL: nat := 6

  // ---------- batches ----------

  /** At most `len` nodes of the level, from `start` on. */
  function Slice<T>(level: seq<T>, start: nat, len: nat): seq<T>
    requires start <= |level|
  {
    if start + len <= |level| then level[start..start + len] else level[start..]
  }

  lemma UpSliceAt<T>(hp: (T, T) -> T, level: seq<T>, a: nat, b: nat, i: nat)
    requires 2 * a <= b <= |level| && ((b - 2 * a) % 2 == 0 || b == |level|)
    requires i < Half(b - 2 * a)
    ensures a + i < Half(|level|) && Up(hp, level[2 * a..b])[i] == Up(hp, level)[a + i]
  {
    var s := level[2 * a..b];
    assert s[2 * i] == level[2 * (a + i)];
    assert RightChild(s, 2 * i) == RightChild(level, 2 * (a + i));
  }

  lemma UpSlice<T>(hp: (T, T) -> T, level: seq<T>, a: nat, len: nat)
    requires 2 * a <= |level|
    ensures Up(hp, Slice(level, 2 * a, 2 * len)) == Slice(Up(hp, level), a, len)
  {
    var b := if 2 * a + 2 * len <= |level| then 2 * a + 2 * len else |level|;
    var up, t := Up(hp, level[2 * a..b]), Slice(Up(hp, level), a, len);
    assert |up| == |t|;
    forall i | 0 <= i < |t|
      ensures up[i] == t[i]
    {
      UpSliceAt(hp, level, a, b, i);
    }
  }

  /**
   The central fact of the sparse build: batch `i` of `2^r` nodes, folded exactly `r` levels with its own
   duplicate-last rule, is node `i` of the dense level `r` steps up, whether or not the batch is full.
   */
  lemma {:induction false} BatchIsNode<T>(hp: (T, T) -> T, level: seq<T>, r: nat, i: nat)
    requires i < CountAt(|level|, r)
    ensures Shl(i, r) < |level|
    ensures var batch := Slice(level, Shl(i, r), Shl(1, r));
            |Ups(hp, batch, r)| == 1 && Ups(hp, batch, r)[0] == Ups(hp, level, r)[i]
    decreases r
  {
    CountAtIndex(|level|, r, i);
    if r > 0 {
      UpSlice(hp, level, Shl(i, r - 1), Shl(1, r - 1));
      BatchIsNode(hp, Up(hp, level), r - 1, i);
    } else {
      assert Slice(level, i, 1) == [level[i]];
    }
  }

  // ---------- checkpoint layout ----------

  /** A stored level; `offset` counts 32-byte nodes from the start of the checkpoint file. */
  datatype StoredLevel = StoredLevel(level: nat, offset: nat, count: nat)

  /** Checkpoint `i` starts where the previous one ends. */
  predicate Follows(cps: seq<StoredLevel>, i: nat) {
    0 < i < |cps| && cps[i].offset == cps[i - 1].offset + cps[i - 1].count
  }

  /**
   Which levels are stored and where: multiples of six below the root, then the root; each one right after the
   previous, with the node count of the dense tree.
   */
  ghost predicate ValidLayout(cps: seq<StoredLevel>, n: nat)
    requires n > 0
  {
    && cps != [] && cps[0].offset == 0
    && (forall i :: 0 <= i < |cps| ==> cps[i].count == CountAt(n, cps[i].level))
    && (forall i :: 0 <= i < |cps| - 1 ==> cps[i].level == INTERVAL * (i + 1) < Depth(n))
    && (forall i :: 0 < i < |cps| ==> Follows(cps, i))
    && cps[|cps| - 1].level == Depth(n) <= INTERVAL * |cps|
  }

  lemma LayoutLength(cps: seq<StoredLevel>, n: nat)
    requires n > 0 && ValidLayout(cps, n)
    ensures Depth(n) <= INTERVAL * |cps| && (|cps| > 1 ==> INTERVAL * (|cps| - 1) < Depth(n))
  {
    if |cps| > 1 {
      assert cps[|cps| - 2].level == INTERVAL * (|cps| - 1);
    }
  }

  /** The layout is determined by the chunk count. */
  lemma {:induction false} LayoutUnique(a: seq<StoredLevel>, b: seq<StoredLevel>, n: nat, i: nat)
    requires n > 0 && ValidLayout(a, n) && ValidLayout(b, n) && i < |a|
    ensures |a| == |b| && a[i] == b[i]
  {
    LayoutLength(a, n);
    LayoutLength(b, n);
    assert a[i].level == b[i].level;
    if i > 0 {
      assert Follows(a, i) && Follows(b, i);
      LayoutUnique(a, b, n, i - 1);
    }
  }

  /** The checkpoints collected before level `level` is looked at, and the offset of the next one. */
  ghost predicate LayoutBefore(cps: seq<StoredLevel>, n: nat, level: nat, off: nat) {
    && (cps == [] ==> off == 0 && level <= INTERVAL)
    && INTERVAL * |cps| <= level <= INTERVAL * (|cps| + 1) && (cps != [] ==> INTERVAL * |cps| < level)
    && (forall i :: 0 <= i < |cps| ==> cps[i].count == CountAt(n, cps[i].level) && cps[i].level == INTERVAL * (i + 1))
    && (forall i :: 0 < i < |cps| ==> Follows(cps, i))
    && (cps != [] ==> cps[0].offset == 0 && off == cps[|cps| - 1].offset + cps[|cps| - 1].count)
  }

  lemma LayoutStep(cps: seq<StoredLevel>, n: nat, level: nat, off: nat, count: nat)
    requires LayoutBefore(cps, n, level, off) && count == CountAt(n, level) > 1
    ensures if level > 0 && level % INTERVAL == 0
            then LayoutBefore(cps + [StoredLevel(level, off, count)], n, level + 1, off + count)
            else LayoutBefore(cps, n, level + 1, off)
  {
    FollowsGrow(cps, StoredLevel(level, off, count));
  }

  lemma FollowsGrow(cps: seq<StoredLevel>, cp: StoredLevel)
    requires forall i :: 0 < i < |cps| ==> Follows(cps, i)
    requires cps != [] ==> cp.offset == cps[|cps| - 1].offset + cps[|cps| - 1].count
    ensures forall i :: 0 < i < |cps| + 1 ==> Follows(cps + [cp], i)
  {
    forall i | 0 < i < |cps|
      ensures Follows(cps + [cp], i)
    {
      assert Follows(cps, i);
    }
  }

  lemma LayoutEnd(cps: seq<StoredLevel>, n: nat, off: nat)
    requires n > 0 && LayoutBefore(cps, n, Depth(n), off)
    ensures ValidLayout(cps + [StoredLevel(Depth(n), off, 1)], n)
  {
    CountAtDepth(n);
    FollowsGrow(cps, StoredLevel(Depth(n), off, 1));
  }

  method ComputeCheckpointOffsets(nChunks: nat) returns (checkpoints: seq<StoredLevel>, totalLevels: nat)
    requires nChunks > 0
    ensures ValidLayout(checkpoints, nChunks) && totalLevels == Depth(nChunks) + 1
  {
    checkpoints := [];
    var count: nat, off: nat, level: nat := nChunks, 0, 0;
    while true
      invariant count == CountAt(nChunks, level) > 0 && level + Depth(count) == Depth(nChunks)
      invariant LayoutBefore(checkpoints, nChunks, level, off)
      decreases count
    {
      var isCheckpoint := (level > 0 && level % INTERVAL == 0) || count == 1;
      if count == 1 {
        LayoutEnd(checkpoints, nChunks, off);
      } else {
        LayoutStep(checkpoints, nChunks, level, off, count);
        CountAtAdd(nChunks, level, 1);
      }
      if isCheckpoint {
        checkpoints := checkpoints + [StoredLevel(level, off, count)];
      }
      if count == 1 {
        break;
      }
      if isCheckpoint {
        off := off + count;
      }
      count := Half(count);
      level := level + 1;
    }
    totalLevels := level + 1;
  }
}
