/**
 The model file cut into 32-byte chunks (`src/pom.rs`): tensors in canonical order, the tail of a tensor that
 does not fill a chunk dropped, and the `(first chunk, file offset)` table through which chunks are read back.
 */
module Chunks {
  import opened Digests
  import opened Nodes
  import opened Numbers

  /** A tensor of the model file, in canonical (name) order. */
  datatype Tensor = Tensor(offset: nat, size: nat) {
    function Full(): nat { size / 32 }
  }

  /** Table entry: canonical index of the tensor's first chunk and that chunk's file offset. */
  datatype Entry = Entry(start: nat, offset: nat)

  ghost predicate InFile(file: Bytes, tensors: seq<Tensor>) {
    forall t :: t in tensors ==> t.offset + t.size <= |file|
  }

  function TensorChunks(file: Bytes, t: Tensor): seq<Digest>
    requires t.offset + t.size <= |file|
  {
    seq(t.Full(), c requires 0 <= c < t.Full() => ReadNode(file, t.offset + 32 * c))
  }

  /** The chunks of the first `k` tensors. */
  function ChunksOf(file: Bytes, tensors: seq<Tensor>, k: nat): seq<Digest>
    requires InFile(file, tensors) && k <= |tensors|
  {
    if k == 0 then [] else ChunksOf(file, tensors, k - 1) + TensorChunks(file, tensors[k - 1])
  }

  /** The canonical chunk sequence of a model. */
  function Canon(file: Bytes, tensors: seq<Tensor>): seq<Digest>
    requires InFile(file, tensors)
  {
    ChunksOf(file, tensors, |tensors|)
  }

  // ---------- which bytes are a chunk ----------

  /** Whole 32-byte windows in the first `k` tensors. */
  function Windows(tensors: seq<Tensor>, k: nat): nat
    requires k <= |tensors|
  {
    if k == 0 then 0 else Windows(tensors, k - 1) + tensors[k - 1].size / 32
  }

  lemma {:induction false} ChunkCount(file: Bytes, tensors: seq<Tensor>, n: nat)
    requires InFile(file, tensors) && n <= |tensors|
    ensures |ChunksOf(file, tensors, n)| == Windows(tensors, n)
    ensures Windows(tensors, n) == 0 <==> forall k :: 0 <= k < n ==> tensors[k].size < 32
  {
    if n > 0 {
      ChunkCount(file, tensors, n - 1);
    }
  }

  lemma {:induction false} WindowsGrow(tensors: seq<Tensor>, k: nat, n: nat)
    requires k < n <= |tensors|
    ensures Windows(tensors, k) + tensors[k].size / 32 <= Windows(tensors, n)
    decreases n
  {
    if k < n - 1 {
      WindowsGrow(tensors, k, n - 1);
    }
  }

  /** Window `c` of tensor `k` is the chunk that as many windows precede, and holds that window's bytes. */
  lemma {:induction false} ChunkAt(file: Bytes, tensors: seq<Tensor>, n: nat, k: nat, c: nat)
    requires InFile(file, tensors) && k < n <= |tensors| && 32 * c + 32 <= tensors[k].size
    ensures var at := tensors[k].offset + 32 * c;
            && Windows(tensors, k) + c < |ChunksOf(file, tensors, n)| && at + 32 <= |file|
            && ChunksOf(file, tensors, n)[Windows(tensors, k) + c] == file[at..at + 32]
    decreases n
  {
    ChunkCount(file, tensors, n - 1);
    ChunkCount(file, tensors, n);
    assert tensors[k] in tensors;
    if k < n - 1 {
      WindowsGrow(tensors, k, n - 1);
      ChunkAt(file, tensors, n - 1, k, c);
    } else {
      assert TensorChunks(file, tensors[k])[c] == file[tensors[k].offset + 32 * c..tensors[k].offset + 32 * c + 32];
    }
  }

  /** Every chunk is a window of some tensor. */
  lemma {:induction false} ChunkFrom(file: Bytes, tensors: seq<Tensor>, n: nat, i: nat) returns (k: nat, c: nat)
    requires InFile(file, tensors) && n <= |tensors| && i < |ChunksOf(file, tensors, n)|
    ensures k < n && 32 * c + 32 <= tensors[k].size && i == Windows(tensors, k) + c
    decreases n
  {
    ChunkCount(file, tensors, n - 1);
    ChunkCount(file, tensors, n);
    if i < Windows(tensors, n - 1) {
      k, c := ChunkFrom(file, tensors, n - 1, i);
    } else {
      k, c := n - 1, i - Windows(tensors, n - 1);
    }
  }

  /** Table and chunk count after the first `k` tensors: one entry per tensor that holds at least one chunk. */
  function TableTo(tensors: seq<Tensor>, k: nat): (r: (seq<Entry>, nat))
    requires k <= |tensors|
  {
    if k == 0 then ([], 0)
    else
      var (table, n) := TableTo(tensors, k - 1);
      var t := tensors[k - 1];
      (if t.Full() > 0 then table + [Entry(n, t.offset)] else table, n + t.Full())
  }

  function TableOf(tensors: seq<Tensor>): (seq<Entry>, nat) {
    TableTo(tensors, |tensors|)
  }

  /** The table locates exactly the canonical chunks. */
  lemma {:induction false} TableCovers(file: Bytes, tensors: seq<Tensor>, k: nat)
    requires InFile(file, tensors) && k <= |tensors|
    ensures TableTo(tensors, k).1 == |ChunksOf(file, tensors, k)|
    ensures Covers(file, TableTo(tensors, k).0, ChunksOf(file, tensors, k))
  {
    if k > 0 {
      TableCovers(file, tensors, k - 1);
      CoversExtend(file, TableTo(tensors, k - 1).0, ChunksOf(file, tensors, k - 1), tensors[k - 1]);
    }
  }

  /** End of the span of entry `j`: the next entry's first chunk, or the chunk count. */
  function SpanEnd(table: seq<Entry>, n: nat, j: nat): nat
    requires j < |table|
  {
    if j + 1 < |table| then table[j + 1].start else n
  }

  /** The table splits `0..n` into consecutive non-empty spans. */
  ghost predicate Partition(table: seq<Entry>, n: nat) {
    && (table == [] <==> n == 0)
    && (table != [] ==> table[0].start == 0)
    && forall j {:trigger SpanEnd(table, n, j)} :: 0 <= j < |table| ==> table[j].start < SpanEnd(table, n, j)
  }

  /** Entry `e` locates chunk `c`. */
  ghost predicate HoldsChunk(file: Bytes, e: Entry, chunks: seq<Digest>, c: nat) {
    && e.start <= c < |chunks|
    && e.offset + (c - e.start) * 32 + 32 <= |file|
    && ReadNode(file, e.offset + (c - e.start) * 32) == chunks[c]
  }

  /** Entry `j` locates every chunk of its span. */
  ghost predicate Locates(file: Bytes, table: seq<Entry>, chunks: seq<Digest>, j: nat)
    requires j < |table|
  {
    forall c :: table[j].start <= c < SpanEnd(table, |chunks|, j) ==> HoldsChunk(file, table[j], chunks, c)
  }

  ghost predicate Covers(file: Bytes, table: seq<Entry>, chunks: seq<Digest>) {
    && Partition(table, |chunks|)
    && forall j :: 0 <= j < |table| ==> Locates(file, table, chunks, j)
  }

  lemma {:induction false} StartsAscend(table: seq<Entry>, n: nat, i: nat, j: nat)
    requires Partition(table, n) && i < j < |table|
    ensures table[i].start < table[j].start && SpanEnd(table, n, i) <= table[j].start < n
    decreases j - i
  {
    assert SpanEnd(table, n, i) == table[i + 1].start;
    if i + 1 < j {
      StartsAscend(table, n, i + 1, j);
    } else {
      LastStartInRange(table, n, j);
    }
  }

  lemma {:induction false} LastStartInRange(table: seq<Entry>, n: nat, j: nat)
    requires Partition(table, n) && j < |table|
    ensures table[j].start < SpanEnd(table, n, j) <= n
    decreases |table| - j
  {
    assert table[j].start < SpanEnd(table, n, j);
    if j + 1 < |table| {
      LastStartInRange(table, n, j + 1);
    }
  }

  /** Number of leading entries that start at or before `off` (`slice::partition_point`). */
  function PartitionPoint(table: seq<Entry>, off: nat): (p: nat)
    ensures p <= |table|
  {
    if table == [] then 0
    else if table[|table| - 1].start <= off then |table|
    else PartitionPoint(table[..|table| - 1], off)
  }

  /** The entry found for an in-range chunk is the one whose span holds it. */
  lemma {:induction false} PartitionPointFinds(table: seq<Entry>, n: nat, off: nat)
    requires Partition(table, n) && off < n
    ensures 0 < PartitionPoint(table, off) <= |table|
    ensures var j := PartitionPoint(table, off) - 1; table[j].start <= off < SpanEnd(table, n, j)
  {
    var last := |table| - 1;
    if table[last].start > off {
      assert table[0].start == 0 && last > 0;
      var front := table[..last];
      assert Partition(front, table[last].start) by {
        forall j | 0 <= j < |front|
          ensures front[j].start < SpanEnd(front, table[last].start, j)
        {
          assert SpanEnd(front, table[last].start, j) == SpanEnd(table, n, j);
        }
      }
      PartitionPointFinds(front, table[last].start, off);
    }
  }

  /** A span belongs to one entry only. */
  lemma SpanUnique(table: seq<Entry>, n: nat, off: nat, i: nat, j: nat)
    requires Partition(table, n) && i < |table| && j < |table|
    requires table[i].start <= off < SpanEnd(table, n, i)
    requires table[j].start <= off < SpanEnd(table, n, j)
    ensures i == j
  {
    if i < j {
      StartsAscend(table, n, i, j);
    } else if j < i {
      StartsAscend(table, n, j, i);
    }
  }

  /** Extending a table by the tensor at the end of the file walk. */
  lemma CoversExtend(file: Bytes, table: seq<Entry>, chunks: seq<Digest>, t: Tensor)
    requires t.offset + t.size <= |file| && Covers(file, table, chunks)
    ensures var grown := if t.Full() > 0 then table + [Entry(|chunks|, t.offset)] else table;
            Covers(file, grown, chunks + TensorChunks(file, t))
  {
    if t.Full() == 0 {
      assert chunks + TensorChunks(file, t) == chunks;
    } else {
      var grown, all := table + [Entry(|chunks|, t.offset)], chunks + TensorChunks(file, t);
      forall j | 0 <= j < |grown|
        ensures grown[j].start < SpanEnd(grown, |all|, j)
      {
        if j < |table| {
          assert SpanEnd(grown, |all|, j) == SpanEnd(table, |chunks|, j);
        }
      }
      assert Partition(grown, |all|);
      forall j | 0 <= j < |grown|
        ensures Locates(file, grown, all, j)
      {
        forall c | grown[j].start <= c < SpanEnd(grown, |all|, j)
          ensures HoldsChunk(file, grown[j], all, c)
        {
          if j < |table| {
            LastStartInRange(table, |chunks|, j);
            assert Locates(file, table, chunks, j);
            assert HoldsChunk(file, table[j], chunks, c);
          }
        }
      }
    }
  }

  // ---------- reading back ----------

  function ReadChunkBytes(file: Bytes, table: seq<Entry>, off: nat): Digest
    requires 0 < PartitionPoint(table, off)
    requires var e := table[PartitionPoint(table, off) - 1]; e.start <= off && e.offset + (off - e.start) * 32 + 32 <= |file|
  {
    var e := table[PartitionPoint(table, off) - 1];
    ReadNode(file, e.offset + (off - e.start) * 32)
  }

  /** Reading chunk `off` through the table yields the canonical chunk `off`. */
  lemma ReadChunkBytesIsCanonical(file: Bytes, table: seq<Entry>, chunks: seq<Digest>, off: nat)
    requires Covers(file, table, chunks) && off < |chunks|
    ensures 0 < PartitionPoint(table, off)
    ensures var e := table[PartitionPoint(table, off) - 1]; e.start <= off && e.offset + (off - e.start) * 32 + 32 <= |file|
    ensures ReadChunkBytes(file, table, off) == chunks[off]
  {
    PartitionPointFinds(table, |chunks|, off);
    var j: nat := PartitionPoint(table, off) - 1;
    assert Locates(file, table, chunks, j);
    assert HoldsChunk(file, table[j], chunks, off);
  }

  /** `read` is exactly the bytes of chunks `first..cur`. */
  ghost predicate HasRead(read: Bytes, chunks: seq<Digest>, first: nat, cur: nat) {
    first <= cur <= |chunks| && |read| == 32 * (cur - first) && Stores(read, 0, chunks[first..cur])
  }

  ghost predicate InSpan(table: seq<Entry>, n: nat, j: nat, cur: nat) {
    j < |table| && table[j].start <= cur < SpanEnd(table, n, j)
  }

  /** One pass of the bulk read: what is left of the span of entry `j`, as far as `out` has room. */
  method ReadSpan(file: Bytes, table: seq<Entry>, ghost chunks: seq<Digest>, nChunks: nat, j: nat, ghost first: nat,
                  cur: nat, out: array<bv8>, filled: nat)
    returns (take: nat)
    requires Covers(file, table, chunks) && nChunks == |chunks| && InSpan(table, nChunks, j, cur)
    requires filled < out.Length && HasRead(out[..filled], chunks, first, cur)
    requires out.Length % 32 == 0 && out.Length <= 32 * (nChunks - first)
    modifies out
    ensures 0 < take <= out.Length - filled && HasRead(out[..filled + take], chunks, first, cur + take / 32)
    ensures filled + take < out.Length ==> InSpan(table, nChunks, j + 1, cur + take / 32)
  {
    var e := table[j];
    take := Min((SpanEnd(table, nChunks, j) - cur) * 32, out.Length - filled);
    RangeStep(file, table, chunks, j, first, cur, take, out[..filled], out.Length);
    CopyInto(file, e.offset + (cur - e.start) * 32, take, out, filled);
  }

  /** Bulk read of chunks `first ..` into `out`, crossing tensor boundaries. */
  method ReadChunkRange(file: Bytes, table: seq<Entry>, ghost chunks: seq<Digest>, nChunks: nat, first: nat, out: array<bv8>)
    requires Covers(file, table, chunks) && nChunks == |chunks| > 0
    requires out.Length % 32 == 0 && first + out.Length / 32 <= nChunks
    modifies out
    ensures out[..] == Flatten(chunks[first..first + out.Length / 32])
  {
    var cur: nat, filled: nat := first, 0;
    PartitionPointPositive(table, first);
    var j: nat := PartitionPoint(table, cur) - 1;
    if first < nChunks {
      PartitionPointFinds(table, nChunks, first);
    }
    while filled < out.Length
      invariant filled <= out.Length
      invariant filled < out.Length ==> InSpan(table, nChunks, j, cur)
      invariant HasRead(out[..filled], chunks, first, cur)
    {
      var take := ReadSpan(file, table, chunks, nChunks, j, first, cur, out, filled);
      filled, cur, j := filled + take, cur + take / 32, j + 1;
    }
    assert out[..] == out[..filled];
    RangeDone(out[..], chunks, first, cur);
  }

  lemma RangeDone(read: Bytes, chunks: seq<Digest>, first: nat, cur: nat)
    requires HasRead(read, chunks, first, cur)
    ensures cur == first + |read| / 32 && read == Flatten(chunks[first..cur])
  {
    StoresExactly(read, chunks[first..cur]);
  }

  lemma {:induction false} PartitionPointPositive(table: seq<Entry>, off: nat)
    requires table != [] && table[0].start == 0
    ensures PartitionPoint(table, off) > 0
  {
    if table[|table| - 1].start > off {
      PartitionPointPositive(table[..|table| - 1], off);
    }
  }

  /** `read_exact_at`: a positional read of `len` bytes into `out[at..]`. */
  method CopyInto(file: Bytes, offset: nat, len: nat, out: array<bv8>, at: nat)
    requires offset + len <= |file| && at + len <= out.Length
    modifies out
    ensures out[..at + len] == old(out[..at]) + file[offset..offset + len]
    ensures out[at + len..] == old(out[at + len..])
  {
    forall i | 0 <= i < len {
      out[at + i] := file[offset + i];
    }
  }

  lemma SpanReads(file: Bytes, table: seq<Entry>, chunks: seq<Digest>, j: nat, cur: nat, n: nat)
    requires j < |table| && Locates(file, table, chunks, j)
    requires table[j].start <= cur && n > 0 && cur + n <= SpanEnd(table, |chunks|, j) && cur + n <= |chunks|
    ensures var at := table[j].offset + (cur - table[j].start) * 32;
            at + 32 * n <= |file| && Stores(file[at..at + 32 * n], 0, chunks[cur..cur + n])
  {
    var at := table[j].offset + (cur - table[j].start) * 32;
    assert HoldsChunk(file, table[j], chunks, cur + n - 1);
    forall i | 0 <= i < n
      ensures ReadNode(file[at..at + 32 * n], 0 + 32 * i) == chunks[cur..cur + n][i]
    {
      assert HoldsChunk(file, table[j], chunks, cur + i);
      assert ReadNode(file[at..at + 32 * n], 32 * i) == ReadNode(file, at + 32 * i);
    }
  }

  /** How many bytes one pass takes, in whole chunks of the span. */
  lemma RangeTake(table: seq<Entry>, n: nat, j: nat, first: nat, cur: nat, take: nat, read: nat, length: nat) returns (m: nat)
    requires Partition(table, n) && InSpan(table, n, j, cur) && first <= cur && read == 32 * (cur - first)
    requires length % 32 == 0 && read < length <= 32 * (n - first)
    requires take == Min((SpanEnd(table, n, j) - cur) * 32, length - read)
    ensures take == 32 * m && m > 0 && cur + m <= SpanEnd(table, n, j) <= n
    ensures read + take < length ==> InSpan(table, n, j + 1, cur + m)
  {
    LastStartInRange(table, n, j);
    m := take / 32;
    if read + take < length {
      assert cur + m == SpanEnd(table, n, j) < n;
      assert j + 1 < |table| && table[j + 1].start == cur + m;
      LastStartInRange(table, n, j + 1);
    }
  }

  lemma RangeStep(file: Bytes, table: seq<Entry>, chunks: seq<Digest>, j: nat, first: nat, cur: nat, take: nat, read: Bytes, length: nat)
    requires Covers(file, table, chunks)
    requires InSpan(table, |chunks|, j, cur) && HasRead(read, chunks, first, cur)
    requires length % 32 == 0 && |read| < length <= 32 * (|chunks| - first)
    requires take == Min((SpanEnd(table, |chunks|, j) - cur) * 32, length - |read|)
    ensures var at := table[j].offset + (cur - table[j].start) * 32;
            at + take <= |file| && HasRead(read + file[at..at + take], chunks, first, cur + take / 32)
    ensures |read| + take < length ==> InSpan(table, |chunks|, j + 1, cur + take / 32)
  {
    var m := RangeTake(table, |chunks|, j, first, cur, take, |read|, length);
    assert take / 32 == m;
    assert Locates(file, table, chunks, j);
    var at := table[j].offset + (cur - table[j].start) * 32;
    SpanReads(file, table, chunks, j, cur, m);
    ReadMore(read, file[at..at + 32 * m], chunks, first, cur, m);
  }

  lemma ReadMore(read: Bytes, more: Bytes, chunks: seq<Digest>, first: nat, cur: nat, m: nat)
    requires HasRead(read, chunks, first, cur) && cur + m <= |chunks| && |more| == 32 * m && Stores(more, 0, chunks[cur..cur + m])
    ensures HasRead(read + more, chunks, first, cur + m)
  {
    StoresConcat(read, more, chunks[first..cur], chunks[cur..cur + m]);
    assert chunks[first..cur] + chunks[cur..cur + m] == chunks[first..cur + m];
  }

  lemma StoresConcat(a: Bytes, b: Bytes, xs: seq<Digest>, ys: seq<Digest>)
    requires Stores(a, 0, xs) && |a| == 32 * |xs| && Stores(b, 0, ys) && |b| == 32 * |ys|
    ensures Stores(a + b, 0, xs + ys)
  {
    StoresGrow(a, b, 0, xs);
    forall i | 0 <= i < |ys|
      ensures ReadNode(a + b, 0 + 32 * (|xs| + i)) == ys[i]
    {
      assert ReadNode(b, 0 + 32 * i) == ys[i];
      assert ReadNode(a + b, |a| + 32 * i) == ReadNode(b, 32 * i);
    }
  }
}
