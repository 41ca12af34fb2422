/**
 What the self-test in `src/pom_gpu.rs` sees. The generator never repeats a word within its period, so which words are
 sampled is decided by undoing the mixing and one multiplication; the words a candidate reduces wrongly are those just
 below the multiples of the divisor from a first one on; and the self-test accepts exactly when it sees none of them.
 */
module ModSamples {
  import opened Numbers
  import opened FastMod
  import opened ProbedMod

  // ---------- multiplication of words ----------

  lemma WrapMul(a: nat, b: nat)
    ensures Wrap(Wrap(a) * b) == Wrap(a * b)
  {
    var q, r := a / W, a % W;
    DivMod(a, W);
    DivMod(r * b, W);
    Distribute(q, W, r, b);
    Distribute(q * b, 1, r * b / W, W);
    assert (q * W) * b == (q * b) * W;
    ModIs(a * b, W, q * b + r * b / W, r * b % W);
  }

  lemma Distribute(q: nat, w: nat, r: nat, b: nat)
    ensures (q * w + r) * b == (q * w) * b + r * b
  {
  }

  /** Multiplying by `m` and then by its inverse gives the word back. */
  lemma Undo(x: nat, m: nat, inverse: nat)
    requires x < W && Wrap(m * inverse) == 1
    ensures Wrap(Wrap(x * m) * inverse) == x
  {
    WrapMul(x * m, inverse);
    assert (x * m) * inverse == (m * inverse) * x;
    WrapMul(m * inverse, x);
    WrapSmall(x);
  }

  // ---------- the counter ----------

  const GAMMA: nat := 0x9E3779B97F4A7C15
  const GAMMA_INVERSE: nat := 0xF1DE83E19937733D

  lemma {:induction false} RngIsMultiple(k: nat)
    ensures Rng(k) == Wrap(k * GAMMA)
  {
    if k > 0 {
      RngIsMultiple(k - 1);
      WrapAdd((k - 1) * GAMMA, GAMMA);
      assert (k - 1) * GAMMA + GAMMA == k * GAMMA;
    }
  }

  lemma WrapAdd(a: nat, b: nat)
    ensures Wrap(Wrap(a) + b) == Wrap(a + b)
  {
    DivMod(a, W);
    DivMod(a % W + b, W);
    Distribute(a / W, 1, (a % W + b) / W, W);
    ModIs(a + b, W, a / W + (a % W + b) / W, (a % W + b) % W);
  }

  /** The draw after which the counter has a given value. */
  function DrawOf(rng: nat): nat {
    Wrap(rng * GAMMA_INVERSE)
  }

  lemma DrawIs(k: nat)
    requires k < W
    ensures DrawOf(Rng(k)) == k
  {
    RngIsMultiple(k);
    Undo(k, GAMMA, GAMMA_INVERSE);
  }

  // ---------- the mixer is one to one ----------

  lemma XorParts(a: nat, b: nat)
    ensures Xor(a, b) % 2 == (a % 2 + b % 2) % 2 && Xor(a, b) / 2 == Xor(a / 2, b / 2)
  {
  }

  lemma SameParity(x: nat, y: nat, u: nat)
    requires (x % 2 + u % 2) % 2 == (y % 2 + u % 2) % 2 && x / 2 == y / 2
    ensures x == y
  {
  }

  lemma {:induction false} XorCancel(x: nat, y: nat, u: nat)
    requires Xor(x, u) == Xor(y, u)
    ensures x == y
    decreases x + y + u
  {
    if x + y > 0 {
      XorParts(x, u);
      XorParts(y, u);
      XorCancel(x / 2, y / 2, u / 2);
      SameParity(x, y, u);
    }
  }

  lemma {:induction false} ShiftXor(a: nat, b: nat, s: nat)
    ensures ShiftRight(Xor(a, b), s) == Xor(ShiftRight(a, s), ShiftRight(b, s))
    decreases s
  {
    if s > 0 {
      XorParts(a, b);
      ShiftXor(a / 2, b / 2, s - 1);
    }
  }

  function XorShift(x: nat, s: nat): nat {
    Xor(x, ShiftRight(x, s))
  }

  lemma ShiftShrinks(x: nat, s: nat)
    requires s > 0
    ensures ShiftRight(x, s) <= x / 2
  {
    ShiftRightBelow(x / 2, s - 1);
  }

  lemma {:induction false} XorShiftInjective(x: nat, y: nat, s: nat)
    requires s > 0 && XorShift(x, s) == XorShift(y, s)
    ensures x == y
    decreases x + y
  {
    if x + y > 0 {
      var u, v := ShiftRight(x, s), ShiftRight(y, s);
      ShiftShrinks(x, s);
      ShiftShrinks(y, s);
      ShiftXor(x, u, s);
      ShiftXor(y, v, s);
      XorShiftInjective(u, v, s);
      XorCancel(x, y, u);
    }
  }

  lemma XorShiftIsWord(x: nat, s: nat)
    requires x < W
    ensures XorShift(x, s) < W
  {
    Pow64();
    ShiftRightBelow(x, s);
    XorBelow(x, ShiftRight(x, s), 64);
  }

  lemma MixInjective(x: nat, y: nat, s: nat, m: nat, inverse: nat)
    requires x < W && y < W && s > 0 && Wrap(m * inverse) == 1
    requires Wrap(XorShift(x, s) * m) == Wrap(XorShift(y, s) * m)
    ensures x == y
  {
    XorShiftIsWord(x, s);
    XorShiftIsWord(y, s);
    Undo(XorShift(x, s), m, inverse);
    Undo(XorShift(y, s), m, inverse);
    XorShiftInjective(x, y, s);
  }

  const M1: nat := 0xBF58476D1CE4E5B9
  const M1_INVERSE: nat := 0x96DE1B173F119089
  const M2: nat := 0x94D049BB133111EB
  const M2_INVERSE: nat := 0x319642B2D24D8EC3

  lemma Inverses()
    ensures Wrap(M1 * M1_INVERSE) == 1 && Wrap(M2 * M2_INVERSE) == 1 && Wrap(GAMMA * GAMMA_INVERSE) == 1
  {
  }

  /** Different counters give different words. */
  lemma SplitMixInjective(a: nat, b: nat)
    requires a < W && b < W && SplitMix(a) == SplitMix(b)
    ensures a == b
  {
    var y, y' := Wrap(XorShift(a, 30) * M1), Wrap(XorShift(b, 30) * M1);
    var z, z' := Wrap(XorShift(y, 27) * M2), Wrap(XorShift(y', 27) * M2);
    assert SplitMix(a) == XorShift(z, 31) && SplitMix(b) == XorShift(z', 31);
    Inverses();
    XorShiftInjective(z, z', 31);
    MixInjective(y, y', 27, M2, M2_INVERSE);
    MixInjective(a, b, 30, M1, M1_INVERSE);
  }

  // ---------- which words are sampled ----------

  ghost predicate Sampled(a: nat) {
    exists k: nat :: 0 < k <= SAMPLES && SplitMix(Rng(k)) == a
  }

  lemma SampledAt(rng: nat)
    requires rng < W
    ensures Sampled(SplitMix(rng)) <==> 0 < DrawOf(rng) <= SAMPLES
  {
    Inverses();
    if k: nat :| 0 < k <= SAMPLES && SplitMix(Rng(k)) == SplitMix(rng) {
      RngIsMultiple(k);
      SplitMixInjective(Rng(k), rng);
      DrawIs(k);
    }
    RngIsMultiple(DrawOf(rng));
    Undo(rng, GAMMA_INVERSE, GAMMA);
  }

  function UndoXorShift(y: nat, s: nat): nat
    requires s > 0
    decreases y
  {
    ShiftShrinks(y, s);
    if y == 0 then 0 else Xor(y, UndoXorShift(ShiftRight(y, s), s))
  }

  lemma {:induction false} XorTwice(a: nat, b: nat)
    ensures Xor(Xor(a, b), b) == a
    decreases a + b
  {
    if a + b > 0 {
      XorTwice(a / 2, b / 2);
      XorParts(a, b);
      XorParts(Xor(a, b), b);
      TwiceParity(Xor(Xor(a, b), b), Xor(a, b), a, b);
    }
  }

  lemma TwiceParity(t: nat, x: nat, a: nat, b: nat)
    requires t / 2 == a / 2 && t % 2 == (x % 2 + b % 2) % 2 && x % 2 == (a % 2 + b % 2) % 2
    ensures t == a
  {
  }

  lemma {:induction false} UndoXorShiftIs(y: nat, s: nat)
    requires s > 0
    ensures XorShift(UndoXorShift(y, s), s) == y
    decreases y
  {
    ShiftShrinks(y, s);
    if y > 0 {
      var u := UndoXorShift(ShiftRight(y, s), s);
      UndoXorShiftIs(ShiftRight(y, s), s);
      ShiftXor(y, u, s);
      XorTwice(u, ShiftRight(u, s));
      XorTwice(y, u);
    } else {
      ShiftRightBelow(0, s);
    }
  }

  lemma {:induction false} UndoXorShiftBelow(y: nat, s: nat, n: nat)
    requires s > 0 && y < Pow2(n)
    ensures UndoXorShift(y, s) < Pow2(n)
    decreases y
  {
    ShiftShrinks(y, s);
    if y > 0 {
      UndoXorShiftBelow(ShiftRight(y, s), s, n);
      XorBelow(y, UndoXorShift(ShiftRight(y, s), s), n);
    }
  }

  /** The counter value mixed into a word. */
  function Unmix(a: nat): nat {
    UndoXorShift(Wrap(UndoXorShift(Wrap(UndoXorShift(a, 31) * M2_INVERSE), 27) * M1_INVERSE), 30)
  }

  lemma UndoneIsWord(y: nat, s: nat)
    requires s > 0 && y < W
    ensures UndoXorShift(y, s) < W && XorShift(UndoXorShift(y, s), s) == y
  {
    Pow64();
    UndoXorShiftBelow(y, s, 64);
    UndoXorShiftIs(y, s);
  }

  lemma SplitMixUnmix(a: nat)
    requires a < W
    ensures Unmix(a) < W && SplitMix(Unmix(a)) == a
  {
    var z := UndoXorShift(a, 31);
    var y := UndoXorShift(Wrap(z * M2_INVERSE), 27);
    var rng := UndoXorShift(Wrap(y * M1_INVERSE), 30);
    Inverses();
    UndoneIsWord(a, 31);
    UndoneIsWord(Wrap(z * M2_INVERSE), 27);
    UndoneIsWord(Wrap(y * M1_INVERSE), 30);
    Undo(z, M2_INVERSE, M2);
    Undo(y, M1_INVERSE, M1);
    assert SplitMix(rng) == XorShift(Wrap(XorShift(Wrap(XorShift(rng, 30) * M1), 27) * M2), 31);
  }

  /** A word is sampled exactly when undoing the mixing and one multiplication puts it among the first million draws. */
  lemma SampledIff(a: nat)
    requires a < W
    ensures Sampled(a) <==> 0 < DrawOf(Unmix(a)) <= SAMPLES
  {
    SplitMixUnmix(a);
    SampledAt(Unmix(a));
  }

  // ---------- words whose overshoot stays small ----------

  /** The overshoot of a word stays under the power. */
  predicate Under(a: nat, d: nat)
    requires 1 < d < W && !IsPow2(d)
  {
    a * Overshoot(d) < Pow2(64 + FloorLog2(d))
  }

  lemma CheckIs(a: nat, d: nat)
    requires 1 < d < W && !IsPow2(d) && a < W
    ensures Check(a, Candidate(d), d) <==> a % d != d - 1 || Under(a, d)
  {
    ReductionValue(a, d);
    DivMod(a, d);
  }

  // ---------- the words reduced wrongly ----------

  /** `k` multiples of the divisor, less one. */
  function BelowMultiple(k: nat, d: nat): (a: nat)
    requires k > 0 && d > 0
  {
    MulLe(1, k, d);
    k * d - 1
  }

  function Ceil(n: nat, m: nat): nat
    requires m > 0
  {
    (n + m - 1) / m
  }

  lemma CeilIff(k: nat, n: nat, m: nat)
    requires m > 0
    ensures k * m >= n <==> k >= Ceil(n, m)
  {
    DivMod(n + m - 1, m);
    var c := Ceil(n, m);
    if k >= c {
      MulLe(c, k, m);
    } else {
      MulLe(k + 1, c, m);
      assert (k + 1) * m == k * m + m;
    }
  }

  /** A divisor of a power of two is one. */
  lemma {:induction false} DividesPow2(q: nat, d: nat, n: nat)
    requires d > 0 && q * d == Pow2(n)
    ensures IsPow2(d)
    decreases n
  {
    if n == 0 {
      UnitFactor(q, d);
    } else if q % 2 == 0 {
      HalfFactor(q, d, Pow2(n));
      DividesPow2(q / 2, d, n - 1);
    } else if d % 2 == 0 {
      HalfFactor(d, q, Pow2(n));
      DividesPow2(q, d / 2, n - 1);
    } else {
      OddFactors(q, d);
    }
  }

  lemma UnitFactor(q: nat, d: nat)
    requires d > 0 && q * d == 1
    ensures d == 1
  {
    MulLe(1, q, d);
  }

  lemma HalfFactor(a: nat, b: nat, p: nat)
    requires a % 2 == 0 && a * b == p
    ensures a / 2 * b == p / 2
  {
    assert a == 2 * (a / 2);
    assert a * b == 2 * (a / 2 * b);
  }

  lemma OddFactors(a: nat, b: nat)
    requires a % 2 == 1 && b % 2 == 1
    ensures a * b % 2 == 1
  {
    assert a == 2 * (a / 2) + 1;
    assert a * b == 2 * (a / 2 * b) + b;
  }

  lemma OvershootPositive(d: nat)
    requires 1 < d < W && !IsPow2(d)
    ensures Overshoot(d) > 0
  {
    CandidateError(d);
    if Overshoot(d) == 0 {
      DividesPow2(Candidate(d).magic, d, 64 + FloorLog2(d));
    }
  }

  /** The first multiple of the divisor below which the scaled overshoot reaches the power. */
  function FirstWrong(d: nat): (k: nat)
    requires 1 < d < W && !IsPow2(d)
    ensures k > 0
  {
    OvershootPositive(d);
    var least := Ceil(Pow2(64 + FloorLog2(d)), Overshoot(d));
    CeilIff(0, least + 1, d);
    Ceil(least + 1, d)
  }

  lemma UnderIff(k: nat, d: nat)
    requires 1 < d < W && !IsPow2(d) && k > 0
    ensures Under(BelowMultiple(k, d), d) <==> k < FirstWrong(d)
  {
    OvershootPositive(d);
    var least := Ceil(Pow2(64 + FloorLog2(d)), Overshoot(d));
    CeilIff(BelowMultiple(k, d), Pow2(64 + FloorLog2(d)), Overshoot(d));
    CeilIff(k, least + 1, d);
  }

  /** Multiple `k` of the divisor is one of those below which the candidate is wrong. */
  predicate IsWrong(k: nat, d: nat)
    requires 1 < d < W && !IsPow2(d)
  {
    FirstWrong(d) <= k <= W / d
  }

  lemma MultipleInWord(k: nat, d: nat)
    requires 0 < d && 0 < k
    ensures k <= W / d <==> BelowMultiple(k, d) < W
    ensures BelowMultiple(k, d) % d == d - 1
  {
    DivMod(W, d);
    if k <= W / d {
      MulLe(k, W / d, d);
    } else {
      MulLe(W / d + 1, k, d);
      assert (W / d + 1) * d == W / d * d + d;
    }
    assert (k - 1) * d == k * d - d;
    ModIs(BelowMultiple(k, d), d, k - 1, d - 1);
  }

  lemma WordBelowMultiple(a: nat, d: nat) returns (k: nat)
    requires 0 < d && a < W && a % d == d - 1
    ensures k > 0 && a == BelowMultiple(k, d) && k <= W / d
  {
    DivMod(a, d);
    k := a / d + 1;
    assert k * d == a / d * d + d;
    MultipleInWord(k, d);
  }

  lemma WrongIsBelowMultiple(a: nat, d: nat) returns (k: nat)
    requires 1 < d < W && !IsPow2(d) && a < W && !Check(a, Candidate(d), d)
    ensures IsWrong(k, d) && a == BelowMultiple(k, d)
  {
    CheckIs(a, d);
    k := WordBelowMultiple(a, d);
    UnderIff(k, d);
  }

  lemma BelowMultipleIsWrong(k: nat, d: nat)
    requires 1 < d < W && !IsPow2(d) && IsWrong(k, d)
    ensures BelowMultiple(k, d) < W && !Check(BelowMultiple(k, d), Candidate(d), d)
  {
    MultipleInWord(k, d);
    CheckIs(BelowMultiple(k, d), d);
    UnderIff(k, d);
  }

  /** A word is reduced wrongly exactly when it lies just below one of these multiples. */
  lemma WrongIff(a: nat, d: nat)
    requires 1 < d < W && !IsPow2(d) && a < W
    ensures !Check(a, Candidate(d), d) <==> exists k :: IsWrong(k, d) && a == BelowMultiple(k, d)
  {
    if !Check(a, Candidate(d), d) {
      var k := WrongIsBelowMultiple(a, d);
    }
    if k: nat :| IsWrong(k, d) && a == BelowMultiple(k, d) {
      BelowMultipleIsWrong(k, d);
    }
  }

  /** Within one of `k` times the divisor, modulo 2^64. */
  predicate Near(a: nat, k: nat, d: nat) {
    a == Wrap(k * d - 1) || a == Wrap(k * d) || a == Wrap(k * d + 1)
  }

  lemma WrapTwice(x: int, e: int)
    ensures Wrap(Wrap(x) + e) == Wrap(x + e)
  {
  }

  /** The probes are three times the divisor and what lies within one of none, one and two times it, modulo 2^64. */
  lemma ProbesAre(a: nat, d: nat)
    requires 0 < d < W
    ensures a in Probes(d) <==> a == Wrap(3 * d) || Near(a, 0, d) || Near(a, 1, d) || Near(a, 2, d)
  {
    WrapTwice(d * 2, -1);
    WrapTwice(d * 2, 1);
    WrapSmall(d);
    WrapSmall(d - 1);
    assert Wrap(0 * d - 1) == MAX_WORD && Wrap(0 * d) == 0 && Wrap(0 * d + 1) == 1;
  }

  // ---------- what the self-test decides ----------

  /** No word reduced wrongly is sampled or probed. */
  ghost predicate Unseen(d: nat)
    requires 1 < d < W && !IsPow2(d)
  {
    forall k :: IsWrong(k, d) ==> !Sampled(BelowMultiple(k, d)) && BelowMultiple(k, d) !in Probes(d)
  }

  /** For every divisor the self-test accepts exactly when it sees no word that is reduced wrongly. */
  lemma PassesIff(d: nat)
    requires 1 < d < W && !IsPow2(d)
    ensures Passes(Candidate(d), d) <==> Unseen(d)
    ensures Exact(d) <==> FirstWrong(d) > W / d
  {
    ExactIffNoneWrong(d);
    CandidateError(d);
    LogBelow64(d);
    if Passes(Candidate(d), d) {
      PassedIsUnseen(d);
    }
    if Unseen(d) {
      forall k: nat | 0 < k <= SAMPLES
        ensures Check(SplitMix(Rng(k)), Candidate(d), d)
      {
        SplitMixIsWord(Rng(k));
        UnseenIsRight(SplitMix(Rng(k)), d);
      }
      forall i | 0 <= i < |Probes(d)|
        ensures Check(Probes(d)[i], Candidate(d), d)
      {
        assert Probes(d)[i] in Probes(d) && Probes(d)[i] < W;
        UnseenIsRight(Probes(d)[i], d);
      }
    }
  }

  lemma ExactIffNoneWrong(d: nat)
    requires 1 < d < W && !IsPow2(d)
    ensures Exact(d) <==> FirstWrong(d) > W / d
  {
    if FirstWrong(d) <= W / d {
      var k := W / d;
      BelowMultipleIsWrong(k, d);
    } else {
      forall a: nat | a < W
        ensures Check(a, Candidate(d), d)
      {
        WrongIff(a, d);
      }
    }
  }

  lemma PassedIsUnseen(d: nat)
    requires 1 < d < W && !IsPow2(d) && Passes(Candidate(d), d)
    ensures Unseen(d)
  {
    forall k | IsWrong(k, d)
      ensures !Sampled(BelowMultiple(k, d)) && BelowMultiple(k, d) !in Probes(d)
    {
      BelowMultipleIsWrong(k, d);
    }
  }

  lemma UnseenIsRight(a: nat, d: nat)
    requires 1 < d < W && !IsPow2(d) && Unseen(d) && a < W && (Sampled(a) || a in Probes(d))
    ensures Check(a, Candidate(d), d)
  {
    WrongIff(a, d);
  }

  // ---------- divisors far below the word range ----------

  /** A candidate can be wrong only above half the word range. */
  lemma WrongIsLarge(k: nat, d: nat)
    requires 1 < d < W && !IsPow2(d) && IsWrong(k, d)
    ensures BelowMultiple(k, d) > W / 2
  {
    UnderIff(k, d);
    CandidateError(d);
    TopBit(d);
    LargeFactor(BelowMultiple(k, d), Overshoot(d), d, Pow2(FloorLog2(d)));
  }

  lemma LargeFactor(a: nat, e: nat, d: nat, p: nat)
    requires a * e >= W * p && e < d < 2 * p
    ensures a > W / 2
  {
    if a <= W / 2 {
      MulLe(a, W / 2, e);
    }
  }

  /** Below 2^61 the ten probes decide nothing: the self-test accepts exactly when no sample is reduced wrongly. */
  lemma SamplesDecide(d: nat)
    requires 1 < d < 0x2000_0000_0000_0000 && !IsPow2(d)
    ensures Passes(Candidate(d), d) <==> forall k :: IsWrong(k, d) ==> !Sampled(BelowMultiple(k, d))
  {
    PassesIff(d);
    forall k | IsWrong(k, d)
      ensures BelowMultiple(k, d) !in Probes(d)
    {
      WrongIsLarge(k, d);
      MultipleInWord(k, d);
      SmallProbes(k, d);
    }
  }

  lemma SmallProbes(k: nat, d: nat)
    requires 1 < d < 0x2000_0000_0000_0000 && !IsPow2(d) && k > 0 && W / 2 < BelowMultiple(k, d) < W
    ensures BelowMultiple(k, d) !in Probes(d)
  {
    WrapSmall(d + 1);
    WrapSmall(d * 2 - 1);
    WrapSmall(d * 2);
    WrapSmall(d * 2 + 1);
    WrapSmall(d * 3);
    if BelowMultiple(k, d) == MAX_WORD {
      Pow64();
      DividesPow2(k, d, 64);
    }
  }
}
