/**
 The raw-loaded tensors of `src/pom_gpu.rs`: one device buffer a tensor and a prefix whose sums are 32 bits wide.
 */
module RawGather {
  import opened Digests
  import opened Nodes
  import opened Chunks
  import opened Options
  import opened TensorPrefix

  const U32: nat := 0x1_0000_0000

  function Truncate(n: nat): (r: nat)
    ensures r < U32
    ensures n < U32 ==> r == n
  {
    n % U32
  }

  lemma TruncateAdd(a: nat, b: nat)
    ensures Truncate(Truncate(a) + Truncate(b)) == Truncate(a + b)
  {
  }

  ghost predicate Gathered(file: Bytes, tensors: seq<Tensor>, k: nat, bases: seq<Bytes>, prefix: seq<nat>)
    requires InFile(file, tensors) && k <= |tensors|
  {
    var (table, n) := TableTo(tensors, k);
    && |prefix| == |bases| + 1 && prefix[|bases|] == Truncate(n)
    && (n < U32 ==> prefix == Prefix(table, n) && AllContent(file, tensors, k, bases))
  }

  ghost predicate AllContent(file: Bytes, tensors: seq<Tensor>, k: nat, bases: seq<Bytes>)
    requires InFile(file, tensors) && k <= |tensors|
  {
    |bases| == |Kept(tensors, k)| && forall j :: 0 <= j < |bases| ==> IsContent(file, tensors, k, bases[j], j)
  }

  ghost predicate IsContent(file: Bytes, tensors: seq<Tensor>, k: nat, base: Bytes, j: nat)
    requires InFile(file, tensors) && k <= |tensors|
  {
    j < |Kept(tensors, k)| && Kept(tensors, k)[j] in tensors && base == Content(file, Kept(tensors, k)[j])
  }

  /** Device buffers and prefix of a loaded model. */
  datatype Gather = Gather(bases: seq<Bytes>, prefix: seq<nat>)

  /**
   A tensor's chunk count and the running prefix are both 32 bits wide; a tensor that counts zero is skipped, and a
   total that comes to zero is refused.
   */
  method GatherRaw(file: Bytes, tensors: seq<Tensor>) returns (loaded: Option<Gather>)
    requires InFile(file, tensors)
    ensures loaded.None? <==> Truncate(|Canon(file, tensors)|) == 0
    ensures loaded.Some? ==> Gathered(file, tensors, |tensors|, loaded.value.bases, loaded.value.prefix)
  {
    var bases, prefix: seq<nat> := [], [0];
    for k := 0 to |tensors|
      invariant Gathered(file, tensors, k, bases, prefix)
    {
      var t := tensors[k];
      var chunks := Truncate(t.Full());
      GatherStep(file, tensors, k, bases, prefix);
      if chunks != 0 {
        bases := bases + [Content(file, t)];
        prefix := prefix + [Truncate(prefix[|prefix| - 1] + chunks)];
      }
    }
    TableCovers(file, tensors, |tensors|);
    if prefix[|prefix| - 1] == 0 {
      return None;
    }
    return Some(Gather(bases, prefix));
  }

  lemma ContentStep(file: Bytes, tensors: seq<Tensor>, k: nat, bases: seq<Bytes>)
    requires InFile(file, tensors) && k < |tensors| && AllContent(file, tensors, k, bases)
    ensures var t := tensors[k]; AllContent(file, tensors, k + 1, if t.Full() == 0 then bases else bases + [Content(file, t)])
  {
    var t := tensors[k];
    var bases' := if t.Full() == 0 then bases else bases + [Content(file, t)];
    forall j | 0 <= j < |bases'|
      ensures IsContent(file, tensors, k + 1, bases'[j], j)
    {
      if j < |bases| {
        assert IsContent(file, tensors, k, bases[j], j);
      }
    }
  }

  lemma GatherStep(file: Bytes, tensors: seq<Tensor>, k: nat, bases: seq<Bytes>, prefix: seq<nat>)
    requires InFile(file, tensors) && k < |tensors| && Gathered(file, tensors, k, bases, prefix)
    ensures var t := tensors[k];
            var c := Truncate(t.Full());
            if c == 0 then Gathered(file, tensors, k + 1, bases, prefix)
            else Gathered(file, tensors, k + 1, bases + [Content(file, t)], prefix + [Truncate(prefix[|prefix| - 1] + c)])
  {
    var (table, n) := TableTo(tensors, k);
    var t := tensors[k];
    TruncateAdd(n, t.Full());
    if n + t.Full() < U32 {
      ContentStep(file, tensors, k, bases);
      if t.Full() > 0 {
        assert prefix + [n + t.Full()] == Prefix(table + [Entry(n, t.offset)], n + t.Full());
      }
    }
  }

  /** The count guard is the exact test: it passes precisely when no 32-bit sum wrapped. */
  lemma GuardIffNoWrap(file: Bytes, tensors: seq<Tensor>, bases: seq<Bytes>, prefix: seq<nat>)
    requires InFile(file, tensors) && Gathered(file, tensors, |tensors|, bases, prefix)
    ensures prefix[|prefix| - 1] == |Canon(file, tensors)| <==> |Canon(file, tensors)| < U32
  {
    TableCovers(file, tensors, |tensors|);
  }

  /** Behind the guard, a lookup in the raw-loaded tensors reads the canonical chunk. */
  lemma GatherReadsCanonical(file: Bytes, tensors: seq<Tensor>, bases: seq<Bytes>, prefix: seq<nat>, j: nat, off: nat)
    requires InFile(file, tensors) && Gathered(file, tensors, |tensors|, bases, prefix)
    requires prefix[|prefix| - 1] == |Canon(file, tensors)| && Hit(prefix, j, off)
    ensures j < |bases| && 32 * (off - prefix[j]) + 32 <= |bases[j]| && off < |Canon(file, tensors)|
    ensures ReadNode(bases[j], 32 * (off - prefix[j])) == Canon(file, tensors)[off]
  {
    var (table, n) := TableOf(tensors);
    GuardIffNoWrap(file, tensors, bases, prefix);
    TableCovers(file, tensors, |tensors|);
    HitIsSpan(table, n, j, off);
    TensorReads(file, tensors, j, off);
    assert IsContent(file, tensors, |tensors|, bases[j], j);
  }
}
