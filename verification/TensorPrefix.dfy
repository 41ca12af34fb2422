/**
 Which tensor holds canonical chunk `i`: the tensors that hold chunks at all, the prefix of their first chunks, and the
 lookup that stops at one of them.
 */
module TensorPrefix {
  import opened Digests
  import opened Nodes
  import opened Chunks

  /** The tensors among the first `k` that hold at least one chunk. */
  function Kept(tensors: seq<Tensor>, k: nat): seq<Tensor>
    requires k <= |tensors|
  {
    if k == 0 then []
    else Kept(tensors, k - 1) + if tensors[k - 1].Full() > 0 then [tensors[k - 1]] else []
  }

  /** Entry `j` of the table is the `j`-th kept tensor, and its span is as long as that tensor's chunks. */
  ghost predicate Matches(table: seq<Entry>, n: nat, kept: seq<Tensor>, j: nat)
    requires j < |table| == |kept|
  {
    table[j].offset == kept[j].offset && SpanEnd(table, n, j) == table[j].start + kept[j].Full()
  }

  lemma {:induction false} KeptTable(tensors: seq<Tensor>, k: nat)
    requires k <= |tensors|
    ensures |TableTo(tensors, k).0| == |Kept(tensors, k)|
    ensures forall j :: 0 <= j < |Kept(tensors, k)| ==> Matches(TableTo(tensors, k).0, TableTo(tensors, k).1, Kept(tensors, k), j)
  {
    if k > 0 {
      KeptTable(tensors, k - 1);
      var (table, n) := TableTo(tensors, k - 1);
      var (table', n') := TableTo(tensors, k);
      var kept, kept' := Kept(tensors, k - 1), Kept(tensors, k);
      forall j | 0 <= j < |kept'|
        ensures Matches(table', n', kept', j)
      {
        if j < |kept| {
          assert Matches(table, n, kept, j);
        }
      }
    }
  }

  lemma {:induction false} KeptInFile(file: Bytes, tensors: seq<Tensor>, k: nat)
    requires InFile(file, tensors) && k <= |tensors|
    ensures forall t :: t in Kept(tensors, k) ==> t in tensors
  {
    if k > 0 {
      KeptInFile(file, tensors, k - 1);
    }
  }

  function Content(file: Bytes, t: Tensor): Bytes
    requires t.offset + t.size <= |file|
  {
    file[t.offset..t.offset + t.size]
  }

  lemma ContentNode(file: Bytes, t: Tensor, at: nat)
    requires t.offset + t.size <= |file| && at + 32 <= t.size
    ensures ReadNode(Content(file, t), at) == ReadNode(file, t.offset + at)
  {
    var part, whole := ReadNode(Content(file, t), at), ReadNode(file, t.offset + at);
    forall i | 0 <= i < 32
      ensures part[i] == whole[i]
    {
      assert Content(file, t)[at + i] == file[t.offset + at + i];
    }
  }

  /** Chunk `off`, found inside the tensor whose span holds it. */
  lemma TensorReads(file: Bytes, tensors: seq<Tensor>, j: nat, off: nat)
    requires InFile(file, tensors)
    requires var (table, n) := TableOf(tensors); j < |table| && table[j].start <= off < SpanEnd(table, n, j)
    ensures var t, start := Kept(tensors, |tensors|), TableOf(tensors).0[j].start;
            && j < |t| && t[j] in tensors && off - start < t[j].Full()
            && off < |Canon(file, tensors)| && ReadNode(Content(file, t[j]), 32 * (off - start)) == Canon(file, tensors)[off]
  {
    var (table, n) := TableOf(tensors);
    var chunks, t := Canon(file, tensors), Kept(tensors, |tensors|);
    KeptTable(tensors, |tensors|);
    KeptInFile(file, tensors, |tensors|);
    TableCovers(file, tensors, |tensors|);
    assert Matches(table, n, t, j);
    assert Locates(file, table, chunks, j);
    assert HoldsChunk(file, table[j], chunks, off);
    var at := 32 * (off - table[j].start);
    ContentNode(file, t[j], at);
  }

  // ---------- prefix tables ----------

  /** First chunk of every kept tensor, then the chunk count. */
  function Prefix(table: seq<Entry>, n: nat): (p: seq<nat>)
    ensures |p| == |table| + 1
  {
    seq(|table| + 1, j requires 0 <= j <= |table| => if j < |table| then table[j].start else n)
  }

  /** The tensor a prefix lookup stops at. */
  predicate Hit(prefix: seq<nat>, j: nat, off: nat) {
    j + 1 < |prefix| && prefix[j] <= off < prefix[j + 1]
  }

  lemma HitIsSpan(table: seq<Entry>, n: nat, j: nat, off: nat)
    ensures Hit(Prefix(table, n), j, off) <==> j < |table| && table[j].start <= off < SpanEnd(table, n, j)
  {
  }

  /** Every chunk is hit exactly once. */
  lemma HitExactlyOnce(file: Bytes, tensors: seq<Tensor>, off: nat)
    requires InFile(file, tensors) && off < |Canon(file, tensors)|
    ensures var (table, n) := TableOf(tensors);
            && (exists j: nat :: Hit(Prefix(table, n), j, off))
            && forall i: nat, j: nat :: Hit(Prefix(table, n), i, off) && Hit(Prefix(table, n), j, off) ==> i == j
  {
    var (table, n) := TableOf(tensors);
    TableCovers(file, tensors, |tensors|);
    PartitionPointFinds(table, n, off);
    var found: nat := PartitionPoint(table, off) - 1;
    HitIsSpan(table, n, found, off);
    forall i: nat, j: nat | Hit(Prefix(table, n), i, off) && Hit(Prefix(table, n), j, off)
      ensures i == j
    {
      HitIsSpan(table, n, i, off);
      HitIsSpan(table, n, j, off);
      SpanUnique(table, n, off, i, j);
    }
  }
}
