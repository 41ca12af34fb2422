/** Targets as the 32 little-endian bytes that mining compares (`src/target.rs`, `src/pom.rs`). */
module TargetBytes {
  import opened Digests
  import opened FastMod
  import opened Target
  import opened LE = LittleEndian

  function WordValue(b: Bytes, n: nat): nat
    requires n + 8 <= |b|
  {
    LE.Value(b[n..n + 8])
  }

  /** `from_le_bytes`: eight bytes a word. */
  function FromLeBytes(b: Digest): seq<nat> {
    seq(4, i requires 0 <= i < 4 => WordValue(b, 8 * i))
  }

  lemma {:induction false} JoinValue(a: Bytes, b: Bytes)
    ensures LE.Value(a + b) == LE.Value(a) + Scale(|a|) * LE.Value(b)
  {
    if a == [] {
      assert a + b == b;
    } else {
      var rest := a[1..];
      assert (a + b)[1..] == rest + b && (a + b)[0] == a[0];
      JoinValue(rest, b);
      OneByteMore(a[0] as nat, LE.Value(rest), Scale(|rest|), LE.Value(b));
    }
  }

  lemma OneByteMore(d: nat, v: nat, s: nat, w: nat)
    ensures d + 256 * (v + s * w) == (d + 256 * v) + (256 * s) * w
  {
  }

  function Above(b: Bytes, n: nat): nat
    requires n <= |b|
  {
    LE.Value(b[n..])
  }

  /** The lowest word of what is left of a byte string. */
  lemma Peel(b: Bytes, n: nat, m: nat)
    requires m == n + 8 <= |b|
    ensures Above(b, n) == WordValue(b, n) + W * Above(b, m) && WordValue(b, n) < W
  {
    assert b[n..] == b[n..m] + b[m..];
    JoinValue(b[n..m], b[m..]);
    ValueBound(b[n..m]);
    Scale8();
  }

  lemma Ends(b: Bytes)
    ensures Above(b, 0) == LE.Value(b) && Above(b, |b|) == 0
  {
    assert b[0..] == b && b[|b|..] == [];
  }

  lemma FourWords(b: Bytes, n0: nat, n1: nat, n2: nat, n3: nat)
    requires |b| == 32 && n0 == 0 && n1 == n0 + 8 && n2 == n1 + 8 && n3 == n2 + 8
    ensures LE.Value(b) == Sum4(WordValue(b, n0), WordValue(b, n1), WordValue(b, n2), WordValue(b, n3))
    ensures WordValue(b, n0) < W && WordValue(b, n1) < W && WordValue(b, n2) < W && WordValue(b, n3) < W
  {
    Ends(b);
    Peel(b, n0, n1);
    Peel(b, n1, n2);
    Peel(b, n2, n3);
    Peel(b, n3, |b|);
  }

  /** The words read from 32 bytes are a target of the value the bytes spell. */
  lemma LeBytesSpell(b: Digest)
    ensures IsU256(FromLeBytes(b)) && Number(FromLeBytes(b)) == LE.Value(b)
  {
    FourWords(b, 0, 8, 16, 24);
    NumberIs(FromLeBytes(b));
  }

  // ---------- writing the bytes ----------

  /** `to_le_bytes`: the bytes of each word, the lowest word first. */
  method ToLeBytes(x: seq<nat>) returns (out: Digest)
    requires IsU256(x)
    ensures FromLeBytes(out) == x && LE.Value(out) == Number(x)
  {
    var b: Bytes := [];
    for i := 0 to 4
      invariant |b| == 8 * i && forall k :: 0 <= k < i ==> WordValue(b, 8 * k) == x[k]
    {
      ghost var before := b;
      b := b + LowBytes(x[i], 8);
      Scale8();
      LowBytesSpell(x[i], 8);
      forall k | 0 <= k <= i
        ensures WordValue(b, 8 * k) == x[k]
      {
        assert k < i ==> b[8 * k..8 * k + 8] == before[8 * k..8 * k + 8];
        assert k == i ==> b[8 * k..8 * k + 8] == LowBytes(x[i], 8);
      }
    }
    out := b;
    LeBytesSpell(out);
  }

  /** Reading is one to one: the bytes written are the only ones that read back as the target. */
  lemma LeBytesUnique(a: Digest, b: Digest)
    requires FromLeBytes(a) == FromLeBytes(b)
    ensures a == b
  {
    LeBytesSpell(a);
    LeBytesSpell(b);
    ValueInjective(a, b);
  }

  /** For any two targets, comparing their written bytes from the top, comparing words and comparing numbers agree. */
  method OrdersAgree(x: seq<nat>, y: seq<nat>) returns (byBytes: bool, byWords: Ordering)
    requires IsU256(x) && IsU256(y)
    ensures byBytes <==> Number(x) <= Number(y)
    ensures byBytes <==> byWords != Greater
  {
    var a := ToLeBytes(x);
    var b := ToLeBytes(y);
    byBytes := LE.LeLeq(a, b);
    byWords := Cmp(x, y);
  }
}
