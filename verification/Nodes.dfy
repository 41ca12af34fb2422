/** Byte strings that hold 32-byte nodes back to back: the model file, the checkpoint file, upload windows. */
module Nodes {
  import opened Digests

  function ReadNode(file: Bytes, offset: nat): Digest
    requires offset + 32 <= |file|
  {
    file[offset..offset + 32]
  }

  /** The bytes from `offset` on begin with `nodes`, in order. */
  ghost predicate Stores(file: Bytes, offset: nat, nodes: seq<Digest>) {
    && offset + 32 * |nodes| <= |file|
    && forall i :: 0 <= i < |nodes| ==> ReadNode(file, offset + 32 * i) == nodes[i]
  }

  function Flatten(nodes: seq<Digest>): (bytes: Bytes)
    ensures |bytes| == 32 * |nodes|
  {
    if nodes == [] then [] else Flatten(nodes[..|nodes| - 1]) + nodes[|nodes| - 1]
  }

  lemma {:induction false} FlattenStores(nodes: seq<Digest>)
    ensures Stores(Flatten(nodes), 0, nodes)
  {
    if nodes != [] {
      var n := |nodes| - 1;
      FlattenStores(nodes[..n]);
      StoresAppend(Flatten(nodes[..n]), 0, nodes[..n], nodes[n]);
      assert nodes[..n] + [nodes[n]] == nodes;
    }
  }

  lemma ByteOfNode(file: Bytes, i: nat, p: nat)
    requires 32 * i <= p < 32 * i + 32 <= |file|
    ensures file[p] == ReadNode(file, 32 * i)[p - 32 * i]
  {
  }

  lemma SameByte(a: Bytes, b: Bytes, nodes: seq<Digest>, i: nat, p: nat)
    requires Stores(a, 0, nodes) && Stores(b, 0, nodes) && i < |nodes| && 32 * i <= p < 32 * i + 32
    ensures p < |a| && p < |b| && a[p] == b[p]
  {
    ByteOfNode(a, i, p);
    ByteOfNode(b, i, p);
    assert ReadNode(a, 0 + 32 * i) == nodes[i] == ReadNode(b, 0 + 32 * i);
  }

  /** A byte string is determined by the nodes it stores. */
  lemma StoresExactly(file: Bytes, nodes: seq<Digest>)
    requires Stores(file, 0, nodes) && |file| == 32 * |nodes|
    ensures file == Flatten(nodes)
  {
    FlattenStores(nodes);
    forall p | 0 <= p < |file|
      ensures file[p] == Flatten(nodes)[p]
    {
      SameByte(file, Flatten(nodes), nodes, p / 32, p);
    }
  }

  /** Writing at the end of the file leaves what is stored where it was. */
  lemma StoresGrow(file: Bytes, more: Bytes, offset: nat, nodes: seq<Digest>)
    requires Stores(file, offset, nodes)
    ensures Stores(file + more, offset, nodes)
  {
    forall i | 0 <= i < |nodes|
      ensures ReadNode(file + more, offset + 32 * i) == nodes[i]
    {
      assert ReadNode(file + more, offset + 32 * i) == ReadNode(file, offset + 32 * i);
    }
  }

  lemma StoresAppend(file: Bytes, offset: nat, nodes: seq<Digest>, node: Digest)
    requires Stores(file, offset, nodes) && |file| == offset + 32 * |nodes|
    ensures Stores(file + node, offset, nodes + [node])
  {
    StoresGrow(file, node, offset, nodes);
    assert ReadNode(file + node, |file|) == node;
  }
}
