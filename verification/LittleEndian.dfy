/** Little-endian byte strings as numbers, and the byte-wise comparison of `src/pom.rs`. */
module LittleEndian {
  import opened Digests

  function Value(b: Bytes): nat {
    if b == [] then 0 else (b[0] as nat) + 256 * Value(b[1..])
  }

  /** The most significant differing byte decides. */
  lemma {:induction false} TopByteDecides(a: Bytes, b: Bytes, i: nat)
    requires i < |a| == |b| && a[i + 1..] == b[i + 1..] && a[i] < b[i]
    ensures Value(a) < Value(b)
  {
    if i > 0 {
      assert a[1..][i..] == a[i + 1..] && b[1..][i..] == b[i + 1..];
      TopByteDecides(a[1..], b[1..], i - 1);
    }
  }

  /** `le_leq`: from the top byte down, the first difference decides; equal strings compare as true. */
  method LeLeq(a: Digest, b: Digest) returns (ok: bool)
    ensures ok <==> Value(a) <= Value(b)
  {
    var i := 32;
    while i > 0
      invariant 0 <= i <= 32 && a[i..] == b[i..]
    {
      i := i - 1;
      if a[i] < b[i] {
        TopByteDecides(a, b, i);
        return true;
      }
      if a[i] > b[i] {
        TopByteDecides(b, a, i);
        return false;
      }
    }
    assert a == b;
    return true;
  }

  // ---------- numbers and their bytes ----------

  /** 256 to the `k`. */
  function Scale(k: nat): nat {
    if k == 0 then 1 else 256 * Scale(k - 1)
  }

  lemma Scale8()
    ensures Scale(8) == 0x1_0000_0000_0000_0000
  {
    assert Scale(4) == 0x1_0000_0000;
  }

  lemma {:induction false} ValueBound(b: Bytes)
    ensures Value(b) < Scale(|b|)
  {
    if b != [] {
      ValueBound(b[1..]);
    }
  }

  lemma ByteInjective(x: bv8, y: bv8)
    requires x as nat == y as nat
    ensures x == y
  {
  }

  lemma SplitByte(x: nat, p: nat, y: nat, q: nat)
    requires x < 256 && y < 256 && x + 256 * p == y + 256 * q
    ensures x == y && p == q
  {
  }

  lemma {:induction false} ValueInjective(a: Bytes, b: Bytes)
    requires |a| == |b| && Value(a) == Value(b)
    ensures a == b
  {
    if a != [] {
      SplitByte(a[0] as nat, Value(a[1..]), b[0] as nat, Value(b[1..]));
      ByteInjective(a[0], b[0]);
      ValueInjective(a[1..], b[1..]);
      assert a == [a[0]] + a[1..] && b == [b[0]] + b[1..];
    }
  }

  /** The `n` lowest bytes of a number. */
  function LowBytes(w: nat, n: nat): (b: Bytes)
    ensures |b| == n
  {
    if n == 0 then [] else [ByteOf(w % 256)] + LowBytes(w / 256, n - 1)
  }

  lemma {:induction false} LowBytesSpell(w: nat, n: nat)
    requires w < Scale(n)
    ensures Value(LowBytes(w, n)) == w
  {
    if n > 0 {
      LowBytesSpell(w / 256, n - 1);
      assert LowBytes(w, n)[1..] == LowBytes(w / 256, n - 1);
    }
  }
}
