/**
 The plain duplicate-last Merkle tree of `src/pom.rs`: every level is kept in memory, a missing right
 child is a copy of the left one. The functions are the reference; the methods are the loops of the source.
 */
module DenseTree {
  // ---------- sizes ----------

  function Half(n: nat): nat {
    (n + 1) / 2
  }

  /** Number of nodes `r` levels above a level of `n` nodes. */
  function CountAt(n: nat, r: nat): nat {
    if r == 0 then n else CountAt(Half(n), r - 1)
  }

  /** Level of the root above a level of `n` nodes. */
  function Depth(n: nat): nat
    requires n > 0
  {
    if n == 1 then 0 else 1 + Depth(Half(n))
  }

  /** `i << r`; the leftmost descendant, `r` levels down, of node `i`. */
  function Shl(i: nat, r: nat): nat {
    if r == 0 then i else 2 * Shl(i, r - 1)
  }

  lemma {:induction false} ShlAdd(i: nat, j: nat, r: nat)
    ensures Shl(i + j, r) == Shl(i, r) + Shl(j, r)
  {
    if r > 0 {
      ShlAdd(i, j, r - 1);
    }
  }

  lemma {:induction false} ShlPositive(r: nat)
    ensures Shl(1, r) > 0
  {
    if r > 0 {
      ShlPositive(r - 1);
    }
  }

  lemma {:induction false} CountAtAdd(n: nat, a: nat, b: nat)
    ensures CountAt(n, a + b) == CountAt(CountAt(n, a), b)
  {
    if a > 0 {
      CountAtAdd(Half(n), a - 1, b);
    }
  }

  /** Index `i` exists `r` levels up exactly when its leftmost descendant exists. */
  lemma {:induction false} CountAtIndex(n: nat, r: nat, i: nat)
    ensures i < CountAt(n, r) <==> Shl(i, r) < n
  {
    if r > 0 {
      CountAtIndex(Half(n), r - 1, i);
    }
  }

  lemma {:induction false} CountAtDepth(n: nat)
    requires n > 0
    ensures CountAt(n, Depth(n)) == 1
    ensures forall r :: 0 <= r < Depth(n) ==> CountAt(n, r) > 1
  {
    if n > 1 {
      CountAtDepth(Half(n));
      forall r | 0 <= r < Depth(n)
        ensures CountAt(n, r) > 1
      {
        if r > 0 {
          assert CountAt(n, r) == CountAt(Half(n), r - 1);
        }
      }
    }
  }

  lemma {:induction false} CountAtPositive(n: nat, r: nat)
    requires n > 0
    ensures CountAt(n, r) > 0
  {
    if r > 0 {
      CountAtPositive(Half(n), r - 1);
    }
  }

  lemma {:induction false} ShlZero(r: nat)
    ensures Shl(0, r) == 0
  {
    if r > 0 {
      ShlZero(r - 1);
    }
  }

  // ---------- levels ----------

  function RightChild<T>(level: seq<T>, i: nat): T
    requires i < |level|
  {
    if i + 1 < |level| then level[i + 1] else level[i]
  }

  /** The next level up. */
  function Up<T>(hp: (T, T) -> T, level: seq<T>): (next: seq<T>)
    ensures |next| == Half(|level|)
    ensures forall i :: 0 <= i < |next| ==> next[i] == hp(level[2 * i], RightChild(level, 2 * i))
  {
    seq(Half(|level|), i requires 0 <= i < Half(|level|) => hp(level[2 * i], RightChild(level, 2 * i)))
  }

  /** The level `r` steps up; a lone node is carried up as its own sibling. */
  function Ups<T>(hp: (T, T) -> T, level: seq<T>, r: nat): (top: seq<T>)
    ensures |top| == CountAt(|level|, r)
    decreases r, level
  {
    if r == 0 then level else Ups(hp, Up(hp, level), r - 1)
  }

  lemma {:induction false} UpsAdd<T>(hp: (T, T) -> T, level: seq<T>, a: nat, b: nat)
    ensures Ups(hp, level, a + b) == Ups(hp, Ups(hp, level, a), b)
    decreases a
  {
    if a > 0 {
      UpsAdd(hp, Up(hp, level), a - 1, b);
    }
  }

  function Root<T>(hp: (T, T) -> T, leaves: seq<T>): T
    requires |leaves| > 0
  {
    CountAtDepth(|leaves|);
    Ups(hp, leaves, Depth(|leaves|))[0]
  }

  // ---------- inclusion paths ----------

  /** Sibling of node `idx`; a node without one is its own sibling. */
  function Sibling<T>(level: seq<T>, idx: nat): T
    requires idx < |level|
  {
    var s := if idx % 2 == 0 then idx + 1 else idx - 1;
    if s < |level| then level[s] else level[idx]
  }

  function Proof<T>(hp: (T, T) -> T, level: seq<T>, idx: nat): (path: seq<T>)
    requires idx < |level|
    ensures |path| == Depth(|level|)
    decreases |level|
  {
    if |level| == 1 then [] else [Sibling(level, idx)] + Proof(hp, Up(hp, level), idx / 2)
  }

  /** Fold of a leaf along a path. */
  function Climb<T>(hp: (T, T) -> T, acc: T, idx: nat, path: seq<T>): T
    decreases |path|
  {
    if path == [] then acc
    else Climb(hp, if idx % 2 == 0 then hp(acc, path[0]) else hp(path[0], acc), idx / 2, path[1..])
  }

  lemma ParentOf<T>(hp: (T, T) -> T, level: seq<T>, idx: nat)
    requires idx < |level|
    ensures Up(hp, level)[idx / 2] ==
      if idx % 2 == 0 then hp(level[idx], Sibling(level, idx)) else hp(Sibling(level, idx), level[idx])
  {
  }

  /** Every honest path folds to the root. */
  lemma {:induction false} ProofClimbs<T>(hp: (T, T) -> T, level: seq<T>, idx: nat)
    requires idx < |level|
    ensures Climb(hp, level[idx], idx, Proof(hp, level, idx)) == Root(hp, level)
    decreases |level|
  {
    if |level| > 1 {
      var up := Up(hp, level);
      ProofClimbs(hp, up, idx / 2);
      ParentOf(hp, level, idx);
      var path, rest := Proof(hp, level, idx), Proof(hp, up, idx / 2);
      assert path[0] == Sibling(level, idx) && path[1..] == rest;
      assert Climb(hp, level[idx], idx, path) == Climb(hp, up[idx / 2], idx / 2, rest);
      assert Root(hp, level) == Root(hp, up);
    }
  }

  // ---------- the loops ----------

  /** The pairing loop shared by `merkle_root`, `merkle_proof` and `fold_levels`. */
  method NextLevel<T>(hp: (T, T) -> T, level: seq<T>) returns (next: seq<T>)
    ensures next == Up(hp, level)
  {
    next := [];
    var i := 0;
    while i < |level|
      invariant i == 2 * |next| && |next| <= Half(|level|)
      invariant forall j :: 0 <= j < |next| ==> next[j] == Up(hp, level)[j]
    {
      var r := if i + 1 < |level| then level[i + 1] else level[i];
      next := next + [hp(level[i], r)];
      i := i + 2;
    }
  }

  method MerkleRoot<T>(hp: (T, T) -> T, leaves: seq<T>) returns (root: T)
    requires |leaves| > 0
    ensures root == Root(hp, leaves)
  {
    var level := leaves;
    while |level| > 1
      invariant |level| > 0
      invariant Root(hp, level) == Root(hp, leaves)
      decreases |level|
    {
      level := NextLevel(hp, level);
    }
    root := level[0];
  }

  method MerkleProof<T>(hp: (T, T) -> T, leaves: seq<T>, index: nat) returns (path: seq<T>)
    requires index < |leaves|
    ensures path == Proof(hp, leaves, index)
  {
    path := [];
    var level := leaves;
    var idx: nat := index;
    while |level| > 1
      invariant idx < |level|
      invariant path + Proof(hp, level, idx) == Proof(hp, leaves, index)
      decreases |level|
    {
      var sibIdx := if idx % 2 == 0 then idx + 1 else idx - 1;
      var sib := if sibIdx < |level| then level[sibIdx] else level[idx];
      assert Proof(hp, level, idx) == [sib] + Proof(hp, Up(hp, level), idx / 2);
      path := path + [sib];
      level := NextLevel(hp, level);
      idx := idx / 2;
    }
  }

  method VerifyMerkle<T(==)>(hp: (T, T) -> T, leaf: T, index: nat, path: seq<T>, root: T) returns (ok: bool)
    ensures ok <==> Climb(hp, leaf, index, path) == root
  {
    var acc: T := leaf;
    var idx: nat := index;
    for i := 0 to |path|
      invariant Climb(hp, acc, idx, path[i..]) == Climb(hp, leaf, index, path)
    {
      assert path[i..][1..] == path[i + 1..];
      acc := if idx % 2 == 0 then hp(acc, path[i]) else hp(path[i], acc);
      idx := idx / 2;
    }
    ok := acc == root;
  }

  /** Exactly `rounds` levels, carrying a lone node with itself. */
  method FoldLevels<T>(hp: (T, T) -> T, batch: seq<T>, rounds: nat) returns (node: T)
    requires |batch| > 0
    ensures |Ups(hp, batch, rounds)| > 0 && node == Ups(hp, batch, rounds)[0]
  {
    CountAtPositive(|batch|, rounds);
    var level := batch;
    for k := 0 to rounds
      invariant |level| > 0
      invariant Ups(hp, level, rounds - k) == Ups(hp, batch, rounds)
    {
      level := NextLevel(hp, level);
    }
    node := level[0];
  }
}
