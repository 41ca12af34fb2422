/**
 The shared walk of `src/llm_engine.rs`: the inference engine's own tensors, and a supplement for those it keeps in host
 memory, behind one prefix table (`keryx-vulkan/src/pom_walk.rs`).
 */
module SharedWalk {
  import opened Digests
  import opened Nodes
  import opened Chunks
  import opened Options
  import opened TensorPrefix

  /** Where a tensor lives: at a device address, or only in host memory. */
  datatype Location = Device(address: nat) | Host

  datatype Slot = Slot(host: bool, at: nat, chunks: nat)

  /** Tensor `j` is in the supplement at its offset, or keeps its device address. */
  ghost predicate Placed(file: Bytes, t: Tensor, where: Location, slot: Slot, supplement: Bytes)
    requires t.offset + t.size <= |file|
  {
    slot.chunks == t.Full()
    && match where
       case Device(address) => !slot.host && slot.at == address
       case Host => slot.host && slot.at + 32 * t.Full() <= |supplement|
                    && supplement[slot.at..slot.at + 32 * t.Full()] == Content(file, t)[..32 * t.Full()]
  }

  /** The locations of the kept tensors. */
  function KeptAt(tensors: seq<Tensor>, locs: seq<Location>, k: nat): (r: seq<Location>)
    requires k <= |tensors| == |locs|
    ensures |r| == |Kept(tensors, k)|
  {
    if k == 0 then []
    else KeptAt(tensors, locs, k - 1) + if tensors[k - 1].Full() > 0 then [locs[k - 1]] else []
  }

  ghost predicate AllPlaced(file: Bytes, tensors: seq<Tensor>, locs: seq<Location>, k: nat, slots: seq<Slot>, supplement: Bytes)
    requires InFile(file, tensors) && k <= |tensors| == |locs|
  {
    && |slots| == |Kept(tensors, k)|
    && forall j :: 0 <= j < |slots| ==> PlacedAt(file, tensors, locs, k, slots[j], j, supplement)
  }

  ghost predicate PlacedAt(file: Bytes, tensors: seq<Tensor>, locs: seq<Location>, k: nat, slot: Slot, j: nat, supplement: Bytes)
    requires InFile(file, tensors) && k <= |tensors| == |locs|
  {
    && j < |Kept(tensors, k)| && Kept(tensors, k)[j] in tensors
    && Placed(file, Kept(tensors, k)[j], KeptAt(tensors, locs, k)[j], slot, supplement)
  }

  /** The table of kept tensors, host-side ones copied one after another into the supplement. */
  method BuildTable(file: Bytes, tensors: seq<Tensor>, locs: seq<Location>) returns (slots: seq<Slot>, supplement: Bytes)
    requires InFile(file, tensors) && |tensors| == |locs|
    ensures AllPlaced(file, tensors, locs, |tensors|, slots, supplement)
  {
    slots, supplement := [], [];
    for k := 0 to |tensors|
      invariant AllPlaced(file, tensors, locs, k, slots, supplement)
    {
      var t := tensors[k];
      var chunks := t.size / 32;
      PlaceStep(file, tensors, locs, k, slots, supplement);
      if chunks != 0 {
        match locs[k] {
          case Device(address) =>
            slots := slots + [Slot(false, address, chunks)];
          case Host =>
            slots := slots + [Slot(true, |supplement|, chunks)];
            supplement := supplement + Content(file, t)[..32 * chunks];
        }
      }
    }
  }

  lemma PlaceStep(file: Bytes, tensors: seq<Tensor>, locs: seq<Location>, k: nat, slots: seq<Slot>, supplement: Bytes)
    requires InFile(file, tensors) && k < |tensors| == |locs| && AllPlaced(file, tensors, locs, k, slots, supplement)
    ensures var t := tensors[k];
            if t.Full() == 0 then AllPlaced(file, tensors, locs, k + 1, slots, supplement)
            else if locs[k].Host? then
              AllPlaced(file, tensors, locs, k + 1, slots + [Slot(true, |supplement|, t.Full())], supplement + Content(file, t)[..32 * t.Full()])
            else AllPlaced(file, tensors, locs, k + 1, slots + [Slot(false, locs[k].address, t.Full())], supplement)
  {
    var t := tensors[k];
    var slots' := if t.Full() == 0 then slots
                  else slots + [if locs[k].Host? then Slot(true, |supplement|, t.Full()) else Slot(false, locs[k].address, t.Full())];
    var supplement' := if t.Full() > 0 && locs[k].Host? then supplement + Content(file, t)[..32 * t.Full()] else supplement;
    forall j | 0 <= j < |slots'|
      ensures PlacedAt(file, tensors, locs, k + 1, slots'[j], j, supplement')
    {
      if j < |slots| {
        assert PlacedAt(file, tensors, locs, k, slots[j], j, supplement);
        PlacedGrows(file, Kept(tensors, k)[j], KeptAt(tensors, locs, k)[j], slots[j], supplement, supplement');
      }
    }
  }

  lemma PlacedGrows(file: Bytes, t: Tensor, where: Location, slot: Slot, a: Bytes, b: Bytes)
    requires t.offset + t.size <= |file| && Placed(file, t, where, slot, a) && a <= b
    ensures Placed(file, t, where, slot, b)
  {
    if where.Host? {
      assert b[slot.at..slot.at + 32 * t.Full()] == a[slot.at..slot.at + 32 * t.Full()];
    }
  }

  const MAX_TENSORS: nat := 0xFFFF_FFFF

  /** `PomWalkShared::new`: a 64-bit prefix over the table; empty and too long tables, null addresses and empty tensors are refused. */
  method PrefixTable(addresses: seq<nat>, counts: seq<nat>) returns (prefix: Option<seq<nat>>)
    requires |addresses| == |counts|
    ensures prefix.None? <==> addresses == [] || |addresses| > MAX_TENSORS || exists j :: 0 <= j < |addresses| && (addresses[j] == 0 || counts[j] == 0)
    ensures prefix.Some? ==> RunningSums(prefix.value, counts, |counts|)
  {
    if addresses == [] || |addresses| > MAX_TENSORS {
      return None;
    }
    var sums: seq<nat> := [];
    var total: nat := 0;
    for k := 0 to |addresses|
      invariant forall j :: 0 <= j < k ==> addresses[j] != 0 && counts[j] != 0
      invariant RunningSums(sums + [total], counts, k) && total >= k
    {
      if addresses[k] == 0 || counts[k] == 0 {
        return None;
      }
      SumsStep(sums + [total], counts, k);
      sums := sums + [total];
      total := total + counts[k];
    }
    return Some(sums + [total]);
  }

  ghost predicate RunningSums(prefix: seq<nat>, counts: seq<nat>, k: nat) {
    k <= |counts| && |prefix| == k + 1 && prefix[0] == 0
    && forall j {:trigger Adds(prefix, counts, j)} :: 0 <= j < k ==> Adds(prefix, counts, j)
  }

  predicate Adds(prefix: seq<nat>, counts: seq<nat>, j: nat) {
    j + 1 < |prefix| && j < |counts| && prefix[j + 1] == prefix[j] + counts[j]
  }

  lemma SumsStep(prefix: seq<nat>, counts: seq<nat>, k: nat)
    requires k < |counts| && RunningSums(prefix, counts, k)
    ensures RunningSums(prefix + [prefix[k] + counts[k]], counts, k + 1)
  {
    var grown := prefix + [prefix[k] + counts[k]];
    forall j | 0 <= j < k + 1
      ensures Adds(grown, counts, j)
    {
      if j < k {
        assert Adds(prefix, counts, j);
      }
    }
  }

  /** Running sums of the kept tensors' chunk counts are the starts of the canonical table. */
  lemma {:induction false} SumsArePrefix(tensors: seq<Tensor>, prefix: seq<nat>, counts: seq<nat>, j: nat)
    requires |counts| == |Kept(tensors, |tensors|)| && RunningSums(prefix, counts, |counts|)
    requires forall i :: 0 <= i < |counts| ==> counts[i] == Kept(tensors, |tensors|)[i].Full()
    requires j <= |counts|
    ensures var (table, n) := TableOf(tensors); |table| == |counts| && prefix[j] == Prefix(table, n)[j]
  {
    KeptTable(tensors, |tensors|);
    var (table, n) := TableOf(tensors);
    if j == 0 {
      TableStarts(tensors, |tensors|);
    } else {
      SumsArePrefix(tensors, prefix, counts, j - 1);
      assert Adds(prefix, counts, j - 1);
      assert Matches(table, n, Kept(tensors, |tensors|), j - 1);
    }
  }

  lemma {:induction false} TableStarts(tensors: seq<Tensor>, k: nat)
    requires k <= |tensors|
    ensures var (table, n) := TableTo(tensors, k); if table == [] then n == 0 else table[0].start == 0
  {
    if k > 0 {
      TableStarts(tensors, k - 1);
    }
  }

  function Counts(slots: seq<Slot>): (counts: seq<nat>)
    ensures |counts| == |slots| && forall j :: 0 <= j < |slots| ==> counts[j] == slots[j].chunks
  {
    seq(|slots|, j requires 0 <= j < |slots| => slots[j].chunks)
  }

  /** The device address of a slot, once the supplement has one. */
  function Address(slot: Slot, supplementAt: nat): nat {
    if slot.host then supplementAt + slot.at else slot.at
  }

  /** Device memory, by address, holds the bytes from `at` on. */
  ghost predicate Resident(memory: nat -> bv8, at: nat, bytes: Bytes) {
    forall i: nat :: i < |bytes| ==> ByteAt(memory, at, i) == bytes[i]
  }

  function ByteAt(memory: nat -> bv8, at: nat, i: nat): bv8 {
    memory(at + i)
  }

  ghost predicate EngineResident(memory: nat -> bv8, file: Bytes, tensors: seq<Tensor>, locs: seq<Location>)
    requires InFile(file, tensors) && |tensors| == |locs|
  {
    var kept, at := Kept(tensors, |tensors|), KeptAt(tensors, locs, |tensors|);
    forall j :: 0 <= j < |kept| && kept[j] in tensors && at[j].Device? ==> Resident(memory, at[j].address, Content(file, kept[j]))
  }

  /** A slot's tensor is in device memory at the slot's address. */
  lemma SlotResident(memory: nat -> bv8, file: Bytes, t: Tensor, where: Location, slot: Slot, supplement: Bytes, supplementAt: nat, p: nat)
    requires t.offset + t.size <= |file| && Placed(file, t, where, slot, supplement)
    requires Resident(memory, supplementAt, supplement)
    requires where.Device? ==> Resident(memory, where.address, Content(file, t))
    requires p < 32 * t.Full()
    ensures memory(Address(slot, supplementAt) + p) == Content(file, t)[p]
  {
    match where
    case Device(address) =>
      assert ByteAt(memory, address, p) == Content(file, t)[p];
    case Host =>
      assert ByteAt(memory, supplementAt, slot.at + p) == supplement[slot.at + p];
      assert supplement[slot.at..slot.at + 32 * t.Full()][p] == Content(file, t)[..32 * t.Full()][p];
  }

  /** A lookup through the shared table reads the canonical chunk, and the table counts the canonical chunks. */
  lemma SharedReadsCanonical(
      memory: nat -> bv8, file: Bytes, tensors: seq<Tensor>, locs: seq<Location>,
      slots: seq<Slot>, supplement: Bytes, supplementAt: nat, prefix: seq<nat>, j: nat, off: nat, b: nat)
    requires InFile(file, tensors) && |tensors| == |locs| && AllPlaced(file, tensors, locs, |tensors|, slots, supplement)
    requires Resident(memory, supplementAt, supplement) && EngineResident(memory, file, tensors, locs)
    requires RunningSums(prefix, Counts(slots), |slots|) && Hit(prefix, j, off) && b < 32
    ensures prefix[|prefix| - 1] == |Canon(file, tensors)| && off < |Canon(file, tensors)| && j < |slots|
    ensures memory(Address(slots[j], supplementAt) + 32 * (off - prefix[j]) + b) == Canon(file, tensors)[off][b]
  {
    var (table, n) := TableOf(tensors);
    var kept, at := Kept(tensors, |tensors|), KeptAt(tensors, locs, |tensors|);
    SharedPrefix(file, tensors, locs, slots, supplement, prefix);
    HitIsSpan(table, n, j, off);
    TensorReads(file, tensors, j, off);
    assert PlacedAt(file, tensors, locs, |tensors|, slots[j], j, supplement);
    var p: nat := 32 * (off - prefix[j]) + b;
    SlotResident(memory, file, kept[j], at[j], slots[j], supplement, supplementAt, p);
    assert ReadNode(Content(file, kept[j]), p - b)[b] == Content(file, kept[j])[p];
  }

  lemma SharedPrefix(file: Bytes, tensors: seq<Tensor>, locs: seq<Location>, slots: seq<Slot>, supplement: Bytes, prefix: seq<nat>)
    requires InFile(file, tensors) && |tensors| == |locs| && AllPlaced(file, tensors, locs, |tensors|, slots, supplement)
    requires RunningSums(prefix, Counts(slots), |slots|)
    ensures var (table, n) := TableOf(tensors); prefix == Prefix(table, n) && n == |Canon(file, tensors)|
  {
    var (table, n) := TableOf(tensors);
    TableCovers(file, tensors, |tensors|);
    KeptTable(tensors, |tensors|);
    forall i | 0 <= i < |slots|
      ensures Counts(slots)[i] == Kept(tensors, |tensors|)[i].Full()
    {
      assert PlacedAt(file, tensors, locs, |tensors|, slots[i], i, supplement);
    }
    forall i | 0 <= i < |prefix|
      ensures prefix[i] == Prefix(table, n)[i]
    {
      SumsArePrefix(tensors, prefix, Counts(slots), i);
    }
  }
}
