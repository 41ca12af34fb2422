/**
 The shards of `keryx-vulkan/src/pom_walk.rs`: the chunks split at a power of two, each shard uploaded through a bounded
 staging window (`keryx-vulkan/src/lib.rs`).
 */
module Shards {
  import opened Digests
  import opened Nodes
  import opened Chunks
  import opened Numbers
  import opened Options
  import FM = FastMod

  const STAGING_BYTES: nat := 268_435_456
  const MAX_N_CHUNKS_FOR_I32_MOD: nat := 0x8000_0000

  /** What the GPU offers: 64-bit integers in shaders, and its largest allocation in bytes, zero when it reports none. */
  datatype Gpu = Gpu(int64: bool, maxAlloc: nat)

  predicate Fits(gpu: Gpu, size: nat) {
    gpu.maxAlloc == 0 || size <= gpu.maxAlloc
  }

  /** Refill the window from the model file and copy it to its place. */
  method FillWindow(file: Bytes, table: seq<Entry>, ghost chunks: seq<Digest>, nChunks: nat, first: nat,
                    buffer: array<bv8>, done: nat, len: nat)
    requires Covers(file, table, chunks) && nChunks == |chunks| && len > 0 && len % 32 == 0 && done % 32 == 0
    requires done + len <= buffer.Length && HasRead(buffer[..done], chunks, first, first + done / 32)
    requires first + (done + len) / 32 <= nChunks
    modifies buffer
    ensures HasRead(buffer[..done + len], chunks, first, first + (done + len) / 32)
  {
    var window := new bv8[len](_ => 0);
    ReadChunkRange(file, table, chunks, nChunks, first + done / 32, window);
    WindowStep(buffer[..done], window[..], chunks, first, first + done / 32);
    CopyInto(window[..], 0, len, buffer, done);
  }

  /**
   One buffer filled through a bounded staging window, each window read from the model file; refused when it is larger
   than the GPU allocates.
   */
  method UploadStreamed(gpu: Gpu, file: Bytes, table: seq<Entry>, ghost chunks: seq<Digest>, nChunks: nat, first: nat, size: nat)
    returns (uploaded: Option<array<bv8>>)
    requires Covers(file, table, chunks) && nChunks == |chunks|
    requires size > 0 && size % 32 == 0 && first + size / 32 <= nChunks
    ensures uploaded.Some? <==> gpu.maxAlloc == 0 || size <= gpu.maxAlloc
    ensures uploaded.Some? ==>
      fresh(uploaded.value) && uploaded.value[..] == Flatten(chunks[first..first + size / 32])
  {
    if !Fits(gpu, size) {
      return None;
    }
    var buffer := new bv8[size](_ => 0);
    var stageSize: nat := Min(size, STAGING_BYTES);
    var done: nat := 0;
    while done != size
      invariant done <= size && done % 32 == 0
      invariant HasRead(buffer[..done], chunks, first, first + done / 32)
      decreases size - done
    {
      var len: nat := Min(size - done, stageSize);
      FillWindow(file, table, chunks, nChunks, first, buffer, done, len);
      done := done + len;
    }
    assert buffer[..] == buffer[..size];
    StoresExactly(buffer[..], chunks[first..first + size / 32]);
    return Some(buffer);
  }

  lemma WindowStep(read: Bytes, window: Bytes, chunks: seq<Digest>, first: nat, cur: nat)
    requires HasRead(read, chunks, first, cur) && |window| % 32 == 0 && cur + |window| / 32 <= |chunks|
    requires window == Flatten(chunks[cur..cur + |window| / 32])
    ensures HasRead(read + window[0..|window|], chunks, first, cur + |window| / 32)
  {
    var n := |window| / 32;
    FlattenStores(chunks[cur..cur + n]);
    StoresConcat(read, window, chunks[first..cur], chunks[cur..cur + n]);
    assert chunks[first..cur] + chunks[cur..cur + n] == chunks[first..cur + n];
    assert window[0..|window|] == window;
  }

  function ShardEnd(s: nat, sc: nat, n: nat): nat {
    if (s + 1) * sc < n then (s + 1) * sc else n
  }

  /** Shard `s` holds whole chunks from `s * sc` on, as many as a shard takes. */
  ghost predicate IsShard(shard: Bytes, chunks: seq<Digest>, sc: nat, s: nat) {
    s * sc <= ShardEnd(s, sc, |chunks|) && shard == Flatten(chunks[s * sc..ShardEnd(s, sc, |chunks|)])
  }

  lemma ShardStart(s: nat, sc: nat, n: nat)
    requires sc > 0 && s < (n + sc - 1) / sc
    ensures s * sc < n && s * sc < ShardEnd(s, sc, n)
  {
    DivMod(n + sc - 1, sc);
    FM.MulLe(s + 1, (n + sc - 1) / sc, sc);
    assert (s + 1) * sc == s * sc + sc;
  }

  /** Chunks of shard `s`; the first shard has as many as any. */
  lemma FirstIsLargest(s: nat, sc: nat, n: nat)
    ensures ShardEnd(s, sc, n) - s * sc <= Min(sc, n) && ShardEnd(0, sc, n) == Min(sc, n)
  {
    assert (s + 1) * sc == s * sc + sc;
  }

  /** The blob cannot be mined on this GPU whatever its chunks hold. */
  predicate Refused(gpu: Gpu, nChunks: nat, sc: nat) {
    nChunks == 0 || sc == 0 || !FM.IsPow2(sc) || (!gpu.int64 && (nChunks >= MAX_N_CHUNKS_FOR_I32_MOD || nChunks < 2))
  }

  /**
   The blob split on chunk boundaries; refused for no chunks, a shard size that is no power of two, a count that the
   shader without 64-bit integers cannot divide by, or a first shard beyond the largest allocation.
   */
  method SplitShards(gpu: Gpu, file: Bytes, table: seq<Entry>, ghost chunks: seq<Digest>, nChunks: nat, sc: nat)
    returns (shards: Option<seq<Bytes>>)
    requires Covers(file, table, chunks) && nChunks == |chunks|
    ensures shards.None? <==> Refused(gpu, nChunks, sc) || !Fits(gpu, 32 * Min(sc, nChunks))
    ensures shards.Some? ==>
      |shards.value| == (nChunks + sc - 1) / sc && forall s :: 0 <= s < |shards.value| ==> IsShard(shards.value[s], chunks, sc, s)
  {
    if Refused(gpu, nChunks, sc) {
      return None;
    }
    var all: seq<Bytes> := [];
    FirstIsLargest(0, sc, nChunks);
    for s := 0 to (nChunks + sc - 1) / sc
      invariant |all| == s && forall q :: 0 <= q < s ==> IsShard(all[q], chunks, sc, q)
      invariant s > 0 ==> Fits(gpu, 32 * Min(sc, nChunks))
    {
      ShardStart(s, sc, nChunks);
      FirstIsLargest(s, sc, nChunks);
      var first := s * sc;
      var count := ShardEnd(s, sc, nChunks) - first;
      var buffer := UploadStreamed(gpu, file, table, chunks, nChunks, first, count * 32);
      if buffer.None? {
        return None;
      }
      all := all + [buffer.value[..]];
    }
    SomeShard(sc, nChunks);
    return Some(all);
  }

  ghost predicate PowerOfTwo(sc: nat) {
    exists b: nat :: sc == FM.Pow2(b)
  }

  lemma PowerIff(sc: nat)
    ensures sc > 0 && FM.IsPow2(sc) <==> PowerOfTwo(sc)
  {
    if sc > 0 && FM.IsPow2(sc) {
      var b := FloorLog2(sc);
      assert sc == FM.Pow2(b);
    }
    if PowerOfTwo(sc) {
      var b: nat :| sc == FM.Pow2(b);
      FM.LogOfPow2(b);
    }
  }

  /** What is refused whatever the chunks hold, spelled out. */
  lemma RefusedIff(gpu: Gpu, nChunks: nat, sc: nat)
    ensures Refused(gpu, nChunks, sc) <==> nChunks == 0 || !PowerOfTwo(sc) || (!gpu.int64 && !(2 <= nChunks < 0x8000_0000))
  {
    PowerIff(sc);
  }

  lemma SomeShard(sc: nat, n: nat)
    requires sc > 0 && n > 0
    ensures (n + sc - 1) / sc > 0
  {
    FM.QuotientAtLeast(n + sc - 1, sc, 1);
  }

  /** `shard = i >> shift`, `slot = i & mask`. */
  lemma ShardAddress(i: nat, sc: nat)
    requires sc > 0 && FM.IsPow2(sc)
    ensures ShiftRight(i, FloorLog2(sc)) == i / sc && FM.And(i, sc - 1) == i % sc
  {
    FM.ShiftRightIsDiv(i, FloorLog2(sc));
    FM.AndMask(i, FloorLog2(sc));
  }

  /** The walk's shard and slot of chunk `i` hold chunk `i`. */
  lemma ShardReadsCanonical(shards: seq<Bytes>, chunks: seq<Digest>, sc: nat, i: nat)
    requires sc > 0 && FM.IsPow2(sc) && i < |chunks| && |shards| == (|chunks| + sc - 1) / sc
    requires forall s :: 0 <= s < |shards| ==> IsShard(shards[s], chunks, sc, s)
    ensures var s, slot := ShiftRight(i, FloorLog2(sc)), FM.And(i, sc - 1);
            s < |shards| && 32 * slot + 32 <= |shards[s]| && ReadNode(shards[s], 32 * slot) == chunks[i]
  {
    ShardAddress(i, sc);
    ShardHolds(i, sc, |chunks|);
    SlotReads(shards[i / sc], chunks, sc, i / sc, i % sc);
  }

  lemma ShardHolds(i: nat, sc: nat, n: nat)
    requires sc > 0 && i < n
    ensures i / sc < (n + sc - 1) / sc && i == i / sc * sc + i % sc && i < ShardEnd(i / sc, sc, n)
  {
    DivMod(i, sc);
    assert (i / sc + 1) * sc == i / sc * sc + sc;
    FM.QuotientAtLeast(n + sc - 1, sc, i / sc + 1);
  }

  lemma SlotReads(shard: Bytes, chunks: seq<Digest>, sc: nat, s: nat, slot: nat)
    requires IsShard(shard, chunks, sc, s) && s * sc + slot < ShardEnd(s, sc, |chunks|)
    ensures 32 * slot + 32 <= |shard| && ReadNode(shard, 32 * slot) == chunks[s * sc + slot]
  {
    var held := chunks[s * sc..ShardEnd(s, sc, |chunks|)];
    FlattenStores(held);
    assert ReadNode(Flatten(held), 0 + 32 * slot) == held[slot];
  }
}
