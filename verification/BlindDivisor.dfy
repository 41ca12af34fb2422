/**
 A divisor the miner can be given, below 2^32, for which the self-test in `src/pom_gpu.rs` accepts a candidate that is
 not the remainder on all words. Nine words are reduced wrongly, and none of them is among the samples.
 */
module BlindDivisor {
  import opened Numbers
  import opened FastMod
  import opened ProbedMod
  import opened ModSamples

  // ---------- exclusive or, bit by bit ----------

  type Operation = (nat, nat) -> nat

  ghost predicate BitStep(f: Operation, a: nat, b: nat, x: nat, y: nat) {
    x < 2 && y < 2 ==> f(2 * a + x, 2 * b + y) == 2 * f(a, b) + (x + y) % 2
  }

  /** What the evaluation needs of exclusive or. */
  ghost predicate Bitwise(f: Operation) {
    f(0, 0) == 0 && forall a: nat, b: nat, x: nat, y: nat :: BitStep(f, a, b, x, y)
  }

  function Xors(): Operation {
    (a: nat, b: nat) => Xor(a, b)
  }

  lemma XorIsBitwise()
    ensures Bitwise(Xors())
  {
    forall a: nat, b: nat, x: nat, y: nat
      ensures BitStep(Xors(), a, b, x, y)
    {
      if x < 2 && y < 2 {
        XorBit(a, b, x, y);
      }
    }
  }

  lemma XorBit(a: nat, b: nat, x: nat, y: nat)
    requires x < 2 && y < 2
    ensures Xor(2 * a + x, 2 * b + y) == 2 * Xor(a, b) + (x + y) % 2
  {
    Halves(a, x);
    Halves(b, y);
    XorParts(2 * a + x, 2 * b + y);
  }

  lemma Halves(p: nat, x: nat)
    requires x < 2
    ensures (2 * p + x) / 2 == p && (2 * p + x) % 2 == x
  {
  }

  lemma OneBit(f: Operation, a: nat, b: nat, p: nat, q: nat, x: nat, y: nat)
    requires Bitwise(f) && a == 2 * p + x && b == 2 * q + y && x < 2 && y < 2
    ensures f(a, b) == 2 * f(p, q) + (x + y) % 2
  {
    assert BitStep(f, p, q, x, y);
  }

  // ---------- byte by byte ----------

  /** The number with `a` above the `n` lowest bits of `x`. */
  function Joined(n: nat, a: nat, x: nat): nat {
    if n == 0 then a else 2 * Joined(n - 1, a, x / 2) + x % 2
  }

  lemma {:induction false} BitwiseJoined(f: Operation, n: nat, a: nat, b: nat, x: nat, y: nat)
    requires Bitwise(f)
    ensures f(Joined(n, a, x), Joined(n, b, y)) == Joined(n, f(a, b), f(x, y))
    decreases n
  {
    if n > 0 {
      var p, q := Joined(n - 1, a, x / 2), Joined(n - 1, b, y / 2);
      BitwiseJoined(f, n - 1, a, b, x / 2, y / 2);
      OneBit(f, Joined(n, a, x), Joined(n, b, y), p, q, x % 2, y % 2);
      OneBit(f, x, y, x / 2, y / 2, x % 2, y % 2);
    }
  }

  lemma {:induction false} JoinedIs(n: nat, a: nat, x: nat)
    requires x < Pow2(n)
    ensures Joined(n, a, x) == Pow2(n) * a + x
    decreases n
  {
    if n > 0 {
      JoinedIs(n - 1, a, x / 2);
    }
  }

  /** The number a byte stands for. Kept as a function value so that the solver never sees the bits. */
  type Reading = bv8 -> nat

  ghost predicate HalfStep(v: Reading, p: bv8, q: bv8) {
    && v(p) == 2 * v(p >> 1) + v(p & 1) && v(p & 1) < 2 && v(p) < 0x100
    && v(p ^ q) == 2 * v((p >> 1) ^ (q >> 1)) + (v(p & 1) + v(q & 1)) % 2
    && (v(p) == 0 && v(q) == 0 ==> v(p ^ q) == 0)
  }

  ghost predicate Reads(v: Reading) {
    forall p, q :: HalfStep(v, p, q)
  }

  function Natural(): Reading {
    (p: bv8) => p as nat
  }

  lemma NaturalReads()
    ensures Reads(Natural())
  {
    forall p, q
      ensures HalfStep(Natural(), p, q)
    {
      NaturalStep(p, q, Natural());
    }
  }

  lemma NaturalStep(p: bv8, q: bv8, v: Reading)
    requires v(p) == p as nat && v(q) == q as nat && v(p & 1) == (p & 1) as nat && v(q & 1) == (q & 1) as nat
    requires v(p >> 1) == (p >> 1) as nat && v(p ^ q) == (p ^ q) as nat && v((p >> 1) ^ (q >> 1)) == ((p >> 1) ^ (q >> 1)) as nat
    ensures HalfStep(v, p, q)
  {
    HalfByte(p);
    HalfOfXor(p, q);
    ZeroBytes(p, q);
  }

  lemma HalfOfXor(p: bv8, q: bv8)
    ensures (p ^ q) as nat == 2 * (((p >> 1) ^ (q >> 1)) as nat) + ((p & 1) as nat + (q & 1) as nat) % 2
  {
    HalfByte(p ^ q);
    LowBit(p, q);
    assert (p ^ q) >> 1 == (p >> 1) ^ (q >> 1);
  }

  lemma HalfByte(p: bv8)
    ensures p as nat == 2 * ((p >> 1) as nat) + (p & 1) as nat && (p & 1) as nat < 2 && p as nat < 0x100
  {
  }

  lemma LowBit(p: bv8, q: bv8)
    ensures ((p ^ q) & 1) as nat == ((p & 1) as nat + (q & 1) as nat) % 2
  {
  }

  lemma ZeroBytes(p: bv8, q: bv8)
    ensures p as nat == 0 && q as nat == 0 ==> (p ^ q) as nat == 0
  {
  }

  lemma {:induction false} BitwiseByte(f: Operation, v: Reading, p: bv8, q: bv8)
    requires Bitwise(f) && Reads(v)
    ensures f(v(p), v(q)) == v(p ^ q)
    decreases v(p) + v(q)
  {
    assert HalfStep(v, p, q) && HalfStep(v, q, p);
    if v(p) + v(q) > 0 {
      BitwiseByte(f, v, p >> 1, q >> 1);
      OneBit(f, v(p), v(q), v(p >> 1), v(q >> 1), v(p & 1), v(q & 1));
    }
  }

  function Above(v: Reading, low: bv8, high: nat): nat {
    0x100 * high + v(low)
  }

  lemma JoinedByte(v: Reading, low: bv8, high: nat, n: nat)
    requires n == 8 && v(low) < 0x100
    ensures Joined(n, high, v(low)) == Above(v, low, high)
  {
    assert Pow2(1) == 2;
    PowSquare(1, 2);
    PowSquare(2, 4);
    PowSquare(4, 0x10);
    JoinedIs(n, high, v(low));
  }

  lemma BitwiseAbove(f: Operation, v: Reading, p: bv8, q: bv8, r: bv8, a: nat, b: nat, c: nat)
    requires Bitwise(f) && Reads(v) && r == p ^ q && f(a, b) == c
    ensures f(Above(v, p, a), Above(v, q, b)) == Above(v, r, c)
  {
    assert HalfStep(v, p, q) && HalfStep(v, q, p) && HalfStep(v, r, p);
    JoinedByte(v, p, a, 8);
    JoinedByte(v, q, b, 8);
    JoinedByte(v, r, c, 8);
    BitwiseByte(f, v, p, q);
    BitwiseJoined(f, 8, a, b, v(p), v(q));
  }

  function Four(v: Reading, p3: bv8, p2: bv8, p1: bv8, p0: bv8, a: nat): nat {
    Above(v, p0, Above(v, p1, Above(v, p2, Above(v, p3, a))))
  }

  lemma BitwiseFour(f: Operation, v: Reading, p3: bv8, p2: bv8, p1: bv8, p0: bv8, q3: bv8, q2: bv8, q1: bv8, q0: bv8,
                    r3: bv8, r2: bv8, r1: bv8, r0: bv8, a: nat, b: nat, c: nat)
    requires Bitwise(f) && Reads(v) && f(a, b) == c && r3 == p3 ^ q3 && r2 == p2 ^ q2 && r1 == p1 ^ q1 && r0 == p0 ^ q0
    ensures f(Four(v, p3, p2, p1, p0, a), Four(v, q3, q2, q1, q0, b)) == Four(v, r3, r2, r1, r0, c)
  {
    BitwiseAbove(f, v, p3, q3, r3, a, b, c);
    var a3, b3, c3 := Above(v, p3, a), Above(v, q3, b), Above(v, r3, c);
    BitwiseAbove(f, v, p2, q2, r2, a3, b3, c3);
    var a2, b2, c2 := Above(v, p2, a3), Above(v, q2, b3), Above(v, r2, c3);
    BitwiseAbove(f, v, p1, q1, r1, a2, b2, c2);
    var a1, b1, c1 := Above(v, p1, a2), Above(v, q1, b2), Above(v, r1, c2);
    BitwiseAbove(f, v, p0, q0, r0, a1, b1, c1);
  }

  /** The number eight bytes spell, most significant first. */
  function Eight(v: Reading, b: seq<bv8>): nat
    requires |b| == 8
  {
    Four(v, b[4], b[5], b[6], b[7], Four(v, b[0], b[1], b[2], b[3], 0))
  }

  predicate Combined(p: seq<bv8>, q: seq<bv8>, r: seq<bv8>)
    requires |p| == |q| == |r| == 8
  {
    && r[0] == p[0] ^ q[0] && r[1] == p[1] ^ q[1] && r[2] == p[2] ^ q[2] && r[3] == p[3] ^ q[3]
    && r[4] == p[4] ^ q[4] && r[5] == p[5] ^ q[5] && r[6] == p[6] ^ q[6] && r[7] == p[7] ^ q[7]
  }

  lemma BitwiseEight(f: Operation, v: Reading, p: seq<bv8>, q: seq<bv8>, r: seq<bv8>)
    requires Bitwise(f) && Reads(v) && |p| == |q| == |r| == 8 && Combined(p, q, r)
    ensures f(Eight(v, p), Eight(v, q)) == Eight(v, r)
  {
    BitwiseFour(f, v, p[0], p[1], p[2], p[3], q[0], q[1], q[2], q[3], r[0], r[1], r[2], r[3], 0, 0, 0);
    BitwiseFour(f, v, p[4], p[5], p[6], p[7], q[4], q[5], q[6], q[7], r[4], r[5], r[6], r[7],
                Four(v, p[0], p[1], p[2], p[3], 0), Four(v, q[0], q[1], q[2], q[3], 0), Four(v, r[0], r[1], r[2], r[3], 0));
  }

  // ---------- evaluating the mixer ----------

  /** The same number, with the conversions written out for the verifier to evaluate. */
  function Number(b: seq<bv8>): nat
    requires |b| == 8
  {
    0x1_0000_0000 * (0x100_0000 * (b[0] as nat) + 0x1_0000 * (b[1] as nat) + 0x100 * (b[2] as nat) + b[3] as nat)
    + 0x100_0000 * (b[4] as nat) + 0x1_0000 * (b[5] as nat) + 0x100 * (b[6] as nat) + b[7] as nat
  }

  lemma FourIs(v: Reading, p3: bv8, p2: bv8, p1: bv8, p0: bv8, a: nat)
    ensures Four(v, p3, p2, p1, p0, a) == 0x1_0000_0000 * a + 0x100_0000 * v(p3) + 0x1_0000 * v(p2) + 0x100 * v(p1) + v(p0)
  {
  }

  lemma NumberIs(b: seq<bv8>)
    requires |b| == 8
    ensures Number(b) == Eight(Natural(), b)
  {
    var v := Natural();
    FourIs(v, b[0], b[1], b[2], b[3], 0);
    FourIs(v, b[4], b[5], b[6], b[7], Four(v, b[0], b[1], b[2], b[3], 0));
  }

  /** A word and its shift, in bytes, combine to the number `x`. */
  predicate Stage(n: nat, shifted: nat, x: nat, p: seq<bv8>, q: seq<bv8>, r: seq<bv8>) {
    |p| == |q| == |r| == 8 && Combined(p, q, r) && Number(p) == n && Number(q) == shifted && Number(r) == x
  }

  lemma StageIs(n: nat, shifted: nat, x: nat, p: seq<bv8>, q: seq<bv8>, r: seq<bv8>)
    requires Stage(n, shifted, x, p, q, r)
    ensures Xor(n, shifted) == x
  {
    XorIsBitwise();
    NaturalReads();
    NumberIs(p);
    NumberIs(q);
    NumberIs(r);
    BitwiseEight(Xors(), Natural(), p, q, r);
  }

  // ---------- machine words ----------

  function Low(x: bv64): bv8 {
    (x & 0xff) as bv8
  }

  /** The bytes of a machine word, most significant first. */
  function Bytes(x: bv64): (b: seq<bv8>)
    ensures |b| == 8
  {
    [Low(x >> 56), Low(x >> 48), Low(x >> 40), Low(x >> 32), Low(x >> 24), Low(x >> 16), Low(x >> 8), Low(x)]
  }

  /** The word that three machine words, as they go through the mixer, lead to is no sample. */
  lemma Unsampled(r: bv64, s: bv64, t: bv64, rng: nat, x: nat, y: nat, u: nat, z: nat, a: nat)
    requires Stage(rng, rng / 0x4000_0000, x, Bytes(r), Bytes(r >> 30), Bytes(r ^ (r >> 30)))
    requires y == Wrap(x * M1) && Stage(y, y / 0x800_0000, u, Bytes(s), Bytes(s >> 27), Bytes(s ^ (s >> 27)))
    requires z == Wrap(u * M2) && Stage(z, z / 0x8000_0000, a, Bytes(t), Bytes(t >> 31), Bytes(t ^ (t >> 31)))
    requires rng < W && DrawOf(rng) > SAMPLES
    ensures !Sampled(a)
  {
    StageIs(rng, rng / 0x4000_0000, x, Bytes(r), Bytes(r >> 30), Bytes(r ^ (r >> 30)));
    StageIs(y, y / 0x800_0000, u, Bytes(s), Bytes(s >> 27), Bytes(s ^ (s >> 27)));
    StageIs(z, z / 0x8000_0000, a, Bytes(t), Bytes(t >> 31), Bytes(t ^ (t >> 31)));
    MixedTo(rng, x, y, u, z, a);
    SampledAt(rng);
  }

  lemma MixedTo(rng: nat, x: nat, y: nat, u: nat, z: nat, a: nat)
    requires Xor(rng, rng / 0x4000_0000) == x && y == Wrap(x * M1)
    requires Xor(y, y / 0x800_0000) == u && z == Wrap(u * M2) && Xor(z, z / 0x8000_0000) == a
    ensures SplitMix(rng) == a
  {
    ShiftPowers();
    ShiftRightIsDiv(rng, 30);
    ShiftRightIsDiv(y, 27);
    ShiftRightIsDiv(z, 31);
  }

  lemma ShiftPowers()
    ensures Pow2(27) == 0x800_0000 && Pow2(30) == 0x4000_0000 && Pow2(31) == 0x8000_0000
  {
    assert Pow2(1) == 2;
    PowSquare(1, 2);
    PowSquare(2, 4);
    PowSquare(4, 0x10);
    PowSquare(8, 0x100);
    PowSquare(16, 0x1_0000);
    Pow2Add(27, 3);
    Pow2Add(30, 1);
    Pow2Add(31, 1);
    assert Pow2(3) == 8;
  }

  // ---------- the nine words ----------

  lemma Word0()
    ensures !Sampled(18446744041784009873)
  {
    Unsampled(0x509c54d73d77d746, 0xd1247bf51f08b8ca, 0xfffffff96ee91b63,
              0x509c54d73d77d746, 0x509c54d67f06841a, 0xd1247bf51f08b8ca, 0xd1247bef3b87c669, 0xfffffff96ee91b63, 18446744041784009873);
  }

  lemma Word1()
    ensures !Sampled(18446744045748136302)
  {
    Unsampled(0x14006ec910026f40, 0x7590aeeac8d1f044, 0xfffffff882a1569f,
              0x14006ec910026f40, 0x14006ec94003d464, 0x7590aeeac8d1f044, 0x7590aee47ac42d1d, 0xfffffff882a1569f, 18446744045748136302);
  }

  lemma Word2()
    ensures !Sampled(18446744049712262731)
  {
    Unsampled(0x30c5d3fe070305ec, 0x6201093202bd6c74, 0xfffffffb965991bc,
              0x30c5d3fe070305ec, 0x30c5d3fec4144a14, 0x6201093202bd6c74, 0x6201093e429c4a34, 0xfffffffb965991bc, 18446744049712262731);
  }

  lemma Word3()
    ensures !Sampled(18446744053676389160)
  {
    Unsampled(0x517e6cc1e0c712ac, 0xcb94334e212ccb93, 0xfffffffaaa11ccdd,
              0x517e6cc1e0c712ac, 0x517e6cc0a53ea1ab, 0xcb94334e212ccb93, 0xcb94335753aaa257, 0xfffffffaaa11ccdd, 18446744053676389160);
  }

  lemma Word4()
    ensures !Sampled(18446744057640515589)
  {
    Unsampled(0x496cbb92691fe24e, 0x7e5d9873af0bf40f, 0xfffffffdbdca07fe,
              0x496cbb92691fe24e, 0x496cbb934cad0c07, 0x7e5d9873af0bf40f, 0x7e5d987c64b8fa7a, 0xfffffffdbdca07fe, 18446744057640515589);
  }

  lemma Word5()
    ensures !Sampled(18446744061604642018)
  {
    Unsampled(0xa855f6511c4970a6, 0x2197b7ce1e67ee52, 0xfffffffcd182431b,
              0xa855f6511c4970a6, 0xa855f653bd1ea9e2, 0x2197b7ce1e67ee52, 0x2197b7ca2c911791, 0xfffffffcd182431b, 18446744061604642018);
  }

  lemma Word6()
    ensures !Sampled(18446744065568768447)
  {
    Unsampled(0xd0c36e7d916f453c, 0x9aba27a9d1915ffa, 0xffffffffe53a7e40,
              0xd0c36e7d916f453c, 0xd0c36e7ed262fcca, 0x9aba27a9d1915ffa, 0x9aba27ba86d5aac0, 0xffffffffe53a7e40, 18446744065568768447);
  }

  lemma Word7()
    ensures !Sampled(18446744069532894876)
  {
    Unsampled(0x26de61a0e35dba03, 0x044d51d31e4e3880, 0xfffffffef8f2b961,
              0x26de61a0e35dba03, 0x26de61a078243c80, 0x044d51d31e4e3880, 0x044d51d397e402e3, 0xfffffffef8f2b961, 18446744069532894876);
  }

  lemma Word8()
    ensures !Sampled(18446744073497021305)
  {
    Unsampled(0x6b880e73b1eb23d8, 0x02a344054bb387e6, 0xfffffffe0caaf485,
              0x6b880e73b1eb23d8, 0x6b880e721fcb1a16, 0x02a344054bb387e6, 0x02a344051fdb074f, 0xfffffffe0caaf485, 18446744073497021305);
  }

  lemma NoneSampled(k: nat, a: nat)
    requires 4653419706 <= k <= 4653419714 && a == k * 3964126429 - 1
    ensures !Sampled(a)
  {
    if k == 4653419706 {
      Word0();
    } else if k == 4653419707 {
      Word1();
    } else if k == 4653419708 {
      Word2();
    } else if k == 4653419709 {
      Word3();
    } else if k == 4653419710 {
      Word4();
    } else if k == 4653419711 {
      Word5();
    } else if k == 4653419712 {
      Word6();
    } else if k == 4653419713 {
      Word7();
    } else {
      Word8();
    }
  }

  // ---------- the divisor ----------

  lemma OvershootIs(d: nat, l: nat, p: nat, m: nat, e: nat)
    requires l <= 63 && p == Pow2(l) && p < d < 2 * p && m * d == W * p + e && e < d
    ensures FloorLog2(d) == l && !IsPow2(d) && Overshoot(d) == e && Pow2(64 + l) == W * p
  {
    LogIs(d, l);
    NumeratorIs(d, l);
    ShiftedPower(l);
    CeilIs(W * p, d, m, e);
  }

  lemma CeilIs(n: nat, d: nat, m: nat, e: nat)
    requires m * d == n + e && e < d
    ensures (n + d - 1) / d == m
  {
    assert (m + 1) * d == m * d + d;
    QuotientIs(n + d - 1, d, m);
  }

  lemma LogIs(d: nat, l: nat)
    requires d > 0 && Pow2(l) <= d < 2 * Pow2(l)
    ensures FloorLog2(d) == l
  {
    TopBit(d);
    PowersInOrder(l, FloorLog2(d));
    PowersInOrder(FloorLog2(d), l);
  }

  lemma PowersInOrder(a: nat, b: nat)
    requires Pow2(a) < 2 * Pow2(b)
    ensures a <= b
  {
    if a > b {
      Pow2Mono(b + 1, a);
    }
  }

  lemma Overshoots(d: nat, k: nat)
    requires 2 * d == 7928252858
    ensures 1 < d < 0x1_0000_0000 && !IsPow2(d) && W / d == 4653419714
    ensures k > 0 ==> (Under(BelowMultiple(k, d), d) <==> k <= 4653419705)
  {
    assert Pow2(31) == 0x8000_0000 by {
      ShiftPowers();
    }
    OvershootIs(d, 31, 0x8000_0000, 9993142743210970580, 2147483652);
    QuotientIs(W, d, 4653419714);
  }

  /** The self-test accepts a candidate that is wrong on exactly nine words. */
  lemma AcceptedNotExact(d: nat)
    requires d == 3964126429
    ensures 1 < d < 0x1_0000_0000 && !IsPow2(d) && FirstWrong(d) == 4653419706 && W / d == 4653419714
    ensures Passes(Candidate(d), d) && !Exact(d)
  {
    Overshoots(d, 4653419705);
    Overshoots(d, 4653419706);
    UnderIff(4653419705, d);
    UnderIff(4653419706, d);
    forall k | IsWrong(k, d)
      ensures !Sampled(BelowMultiple(k, d))
    {
      NoneSampled(k, BelowMultiple(k, d));
    }
    SamplesDecide(d);
    PassesIff(d);
  }
}
