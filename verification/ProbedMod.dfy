/**
 The 64-bit magic modulo of `src/pom_gpu.rs`: a search loop whose candidates are accepted on samples. Exactly one
 candidate can ever be accepted; its reduction is described for every 64-bit input, and so is the exact condition
 under which it is `%`. Arithmetic is that of a release build: shifts and sums wrap.
 */
module ProbedMod {
  import opened Numbers
  import opened FastMod

  datatype ModMagic = ModMagic(magic: nat, shift: nat)

  const MAX_WORD: nat := 0xFFFF_FFFF_FFFF_FFFF
  const SAMPLES: nat := 1_000_000

  /** The kernel's formula. */
  function FastReduce(a: nat, m: ModMagic, d: nat): nat {
    var q := ShiftRight(MulHi(a, m.magic), m.shift);
    Wrap(a - Wrap(q * d))
  }

  predicate Check(a: nat, m: ModMagic, d: nat)
    requires d > 0
  {
    FastReduce(a, m, d) == a % d
  }

  /** Bitwise exclusive or. */
  function Xor(a: nat, b: nat): nat
    decreases a + b
  {
    if a == 0 && b == 0 then 0 else (a % 2 + b % 2) % 2 + 2 * Xor(a / 2, b / 2)
  }

  lemma {:induction false} XorBelow(a: nat, b: nat, n: nat)
    requires a < Pow2(n) && b < Pow2(n)
    ensures Xor(a, b) < Pow2(n)
    decreases n
  {
    if n > 0 {
      XorBelow(a / 2, b / 2, n - 1);
    }
  }

  /** The generator's counter after `k` draws. */
  function Rng(k: nat): nat {
    if k == 0 then 0 else Wrap(Rng(k - 1) + 0x9E3779B97F4A7C15)
  }

  function SplitMix(rng: nat): nat {
    var y := Wrap(Xor(rng, ShiftRight(rng, 30)) * 0xBF58476D1CE4E5B9);
    var z := Wrap(Xor(y, ShiftRight(y, 27)) * 0x94D049BB133111EB);
    Xor(z, ShiftRight(z, 31))
  }

  lemma {:induction false} ShiftRightBelow(x: nat, s: nat)
    ensures ShiftRight(x, s) <= x
  {
    if s > 0 {
      ShiftRightBelow(x / 2, s - 1);
    }
  }

  lemma SplitMixIsWord(rng: nat)
    ensures SplitMix(rng) < W
  {
    var y := Wrap(Xor(rng, ShiftRight(rng, 30)) * 0xBF58476D1CE4E5B9);
    var z := Wrap(Xor(y, ShiftRight(y, 27)) * 0x94D049BB133111EB);
    ShiftRightBelow(z, 31);
    Pow64();
    XorBelow(z, ShiftRight(z, 31), 64);
  }

  /** The ten structured inputs. */
  function Probes(d: nat): seq<nat>
    requires d > 0
  {
    [0, 1, d - 1, d, Wrap(d + 1), MAX_WORD,
     Wrap(Wrap(d * 2) - 1), Wrap(d * 2), Wrap(Wrap(d * 2) + 1), Wrap(d * 3)]
  }

  ghost predicate SamplesPass(m: ModMagic, d: nat, n: nat)
    requires d > 0
  {
    forall k: nat :: 0 < k <= n ==> Check(SplitMix(Rng(k)), m, d)
  }

  ghost predicate ProbesPass(m: ModMagic, d: nat, n: nat)
    requires d > 0 && n <= |Probes(d)|
  {
    forall i :: 0 <= i < n ==> Check(Probes(d)[i], m, d)
  }

  ghost predicate Passes(m: ModMagic, d: nat)
    requires d > 0
  {
    m.magic != 0 && m.shift <= 63 && SamplesPass(m, d, SAMPLES) && ProbesPass(m, d, |Probes(d)|)
  }

  method CheckSamples(m: ModMagic, d: nat) returns (ok: bool)
    requires 0 < d < W
    ensures ok <==> SamplesPass(m, d, SAMPLES)
  {
    var rng := 0;
    for k := 0 to SAMPLES
      invariant rng == Rng(k)
      invariant SamplesPass(m, d, k)
    {
      rng := Wrap(rng + 0x9E3779B97F4A7C15);
      assert rng == Rng(k + 1);
      if !Check(SplitMix(rng), m, d) {
        return false;
      }
    }
    return true;
  }

  method CheckProbes(m: ModMagic, d: nat) returns (ok: bool)
    requires 0 < d < W
    ensures ok <==> ProbesPass(m, d, |Probes(d)|)
  {
    var probes := Probes(d);
    for i := 0 to |probes|
      invariant ProbesPass(m, d, i)
    {
      if !Check(probes[i], m, d) {
        return false;
      }
    }
    return true;
  }

  method VerifyModMagic(m: ModMagic, d: nat) returns (ok: bool)
    requires 0 < d < W
    ensures ok <==> Passes(m, d)
  {
    if m.magic == 0 || m.shift > 63 {
      return false;
    }
    ok := CheckSamples(m, d);
    if ok {
      ok := CheckProbes(m, d);
    }
  }

  /** `1u128 << s`. */
  function One128(s: nat): (r: nat)
    ensures r > 0
  {
    Pow2(s % 128)
  }

  function Numerator(d: nat, shift: nat): nat
    requires d > 0
  {
    (One128(64 + shift) + d - 1) / d
  }

  function Candidate(d: nat): ModMagic
    requires d > 0
  {
    ModMagic(Numerator(d, FloorLog2(d)), FloorLog2(d))
  }

  /** Only the first candidate fits a word, and only for a divisor that is not a power of two. */
  lemma OnlyFirstFits(d: nat, shift: nat)
    requires 1 < d < W && FloorLog2(d) <= shift <= 63
    ensures Numerator(d, shift) <= MAX_WORD <==> shift == FloorLog2(d) && !IsPow2(d)
  {
    var l := FloorLog2(d);
    TopBit(d);
    NumeratorIs(d, shift);
    if shift == l && !IsPow2(d) {
      CeilBelow(d, Pow2(l));
    } else {
      Pow2Mono(if IsPow2(d) then l else l + 1, shift);
      CeilAtLeast(d, Pow2(shift));
    }
  }

  lemma NumeratorIs(d: nat, shift: nat)
    requires d > 0 && shift <= 63
    ensures Numerator(d, shift) == (W * Pow2(shift) + d - 1) / d
  {
    ShiftedPower(shift);
    SmallMod(64 + shift, 128);
  }

  lemma SmallMod(a: nat, d: nat)
    requires a < d
    ensures a % d == a
  {
    ModIs(a, d, 0, a);
  }

  lemma CeilAtLeast(d: nat, p: nat)
    requires 0 < d <= p
    ensures (W * p + d - 1) / d >= W
  {
    MulLe(d, p, W);
    assert W * d == d * W && p * W == W * p;
    QuotientAtLeast(W * p + d - 1, d, W);
  }

  lemma CeilBelow(d: nat, p: nat)
    requires 0 < p < d < W
    ensures (W * p + d - 1) / d < W
  {
    MulLe(p + 1, d, W);
    assert W * d == d * W && (p + 1) * W == W * p + W;
    QuotientBelow(W * p + d - 1, d, W);
  }

  /** The whole search: what it returns for every divisor. */
  method ModMagicFor(d: nat) returns (r: ModMagic)
    requires d < W
    ensures d <= 1 || IsPow2(d) ==> r == ModMagic(0, 0)
    ensures d > 1 && !IsPow2(d) && Passes(Candidate(d), d) ==> r == Candidate(d)
    ensures d > 1 && !IsPow2(d) && !Passes(Candidate(d), d) ==> r == ModMagic(0, 0)
  {
    if d <= 1 {
      return ModMagic(0, 0);
    }
    LogBelow64(d);
    var bits := FloorLog2(d) + 1;
    for extra := 0 to 64
      invariant extra > 0 && !IsPow2(d) ==> !Passes(Candidate(d), d)
    {
      var shift := bits - 1 + extra;
      var num := Numerator(d, shift);
      if shift <= 63 {
        OnlyFirstFits(d, shift);
      }
      if num <= MAX_WORD {
        var ok := VerifyModMagic(ModMagic(num, shift), d);
        if ok {
          return ModMagic(num, shift);
        }
      }
    }
    return ModMagic(0, 0);
  }

  // ---------- the candidate over all words ----------

  /** How far the rounded-up reciprocal overshoots. */
  function Overshoot(d: nat): int
    requires d > 0
  {
    Candidate(d).magic * d - Pow2(64 + FloorLog2(d))
  }

  lemma CandidateError(d: nat)
    requires 1 < d < W && !IsPow2(d)
    ensures 0 < Candidate(d).magic < W && 0 <= Overshoot(d) < d
    ensures Pow2(64 + FloorLog2(d)) == W * Pow2(FloorLog2(d))
  {
    var l := FloorLog2(d);
    LogBelow64(d);
    OnlyFirstFits(d, l);
    ShiftedPower(l);
    NumeratorIs(d, l);
    CeilError(W * Pow2(l), d);
  }

  lemma CeilError(p: nat, d: nat)
    requires d > 0 && p > 0
    ensures (p + d - 1) / d > 0 && p <= (p + d - 1) / d * d < p + d
  {
    DivMod(p + d - 1, d);
    QuotientAtLeast(p + d - 1, d, 1);
  }

  /**
   The reduction of every word: the remainder, except for the words just below a multiple of `d` whose scaled
   overshoot reaches the power; there it is the largest word.
   */
  lemma ReductionValue(a: nat, d: nat)
    requires 1 < d < W && !IsPow2(d) && a < W
    ensures FastReduce(a, Candidate(d), d)
         == if a % d == d - 1 && a * Overshoot(d) >= Pow2(64 + FloorLog2(d)) then MAX_WORD else a % d
  {
    var l := FloorLog2(d);
    CandidateError(d);
    TopBit(d);
    SmallError(a, Overshoot(d), Pow2(l));
    ReduceWith(a, d, Candidate(d).magic, l, Overshoot(d));
  }

  lemma ReduceWith(a: nat, d: nat, m: nat, l: nat, e: nat)
    requires 0 < d && a < W && m * d == Pow2(64 + l) + e && a * e < 2 * Pow2(64 + l)
    ensures FastReduce(a, ModMagic(m, l), d) == if a % d == d - 1 && a * e >= Pow2(64 + l) then MAX_WORD else a % d
  {
    var p := Pow2(64 + l);
    MagicQuotient(a, d, m, p, e);
    KernelQuotient(a, m, l);
    Leftover(a, d, if a % d == d - 1 && a * e >= p then 1 else 0);
  }

  lemma KernelQuotient(a: nat, m: nat, l: nat)
    ensures ShiftRight(MulHi(a, m), l) == a * m / Pow2(64 + l)
  {
    ShiftRightIsDiv(MulHi(a, m), l);
    DivDiv(a * m, W, Pow2(l));
    ShiftedPower(l);
  }

  lemma Leftover(a: nat, d: nat, c: nat)
    requires 0 < d && a < W && (c == 0 || (c == 1 && a % d == d - 1))
    ensures Wrap(a - Wrap((a / d + c) * d)) == if c == 1 then MAX_WORD else a % d
  {
    if c == 0 {
      Remainder(a, d);
    } else {
      DivMod(a, d);
      assert (a / d + 1) * d == a / d * d + d == a + 1;
    }
  }

  /** The largest word congruent to `d - 1`. */
  function Largest(d: nat): nat
    requires 1 < d < W
  {
    DivMod(W, d);
    QuotientAtLeast(W, d, 1);
    MulLe(1, W / d, d);
    W / d * d - 1
  }

  lemma LargestIsLargest(d: nat, a: nat)
    requires 1 < d < W && a < W && a % d == d - 1
    ensures a <= Largest(d) < W && Largest(d) % d == d - 1
  {
    DivMod(W, d);
    DivMod(a, d);
    assert (a / d + 1) * d == a / d * d + d;
    QuotientAtLeast(W, d, a / d + 1);
    MulLe(a / d + 1, W / d, d);
    assert (W / d - 1) * d == W / d * d - d;
    ModIs(Largest(d), d, W / d - 1, d - 1);
  }

  ghost predicate Exact(d: nat)
    requires d > 0
  {
    forall a: nat :: a < W ==> Check(a, Candidate(d), d)
  }

  predicate FewOvershoots(d: nat)
    requires 1 < d < W
  {
    Largest(d) * Overshoot(d) < Pow2(64 + FloorLog2(d))
  }

  /** The candidate is `%` on all words exactly when it is on the largest word just below a multiple of `d`. */
  lemma ExactIff(d: nat)
    requires 1 < d < W && !IsPow2(d)
    ensures Exact(d) <==> FewOvershoots(d)
  {
    SmallMod(d - 1, d);
    LargestIsLargest(d, d - 1);
    FailsAtLargest(d);
    CandidateError(d);
    var top := Largest(d);
    if Exact(d) {
      assert Check(top, Candidate(d), d);
    }
    if FewOvershoots(d) {
      forall a: nat | a < W
        ensures Check(a, Candidate(d), d)
      {
        ReductionValue(a, d);
        if a % d == d - 1 {
          LargestIsLargest(d, a);
          MulLe(a, top, Overshoot(d));
        }
      }
    }
  }

  /** An exact candidate is never refused. */
  lemma ExactIsAccepted(d: nat)
    requires 1 < d < W && !IsPow2(d) && FewOvershoots(d)
    ensures Passes(Candidate(d), d)
  {
    ExactIff(d);
    CandidateError(d);
    LogBelow64(d);
    var m := Candidate(d);
    forall k: nat | 0 < k <= SAMPLES
      ensures Check(SplitMix(Rng(k)), m, d)
    {
      SplitMixIsWord(Rng(k));
    }
    forall i | 0 <= i < |Probes(d)|
      ensures Check(Probes(d)[i], m, d)
    {
      assert Probes(d)[i] < W;
    }
  }

  /** With fewer than three multiples of `d` in a word, the structured inputs alone decide: accepted means exact. */
  lemma AcceptedIsExactForLarge(d: nat)
    requires 1 < d < W && !IsPow2(d) && W <= 3 * d - 1
    ensures Passes(Candidate(d), d) <==> Exact(d)
  {
    ExactIff(d);
    if Exact(d) {
      ExactIsAccepted(d);
    }
    if Passes(Candidate(d), d) {
      LargestIsProbed(d);
      FailsAtLargest(d);
    }
  }

  lemma FailsAtLargest(d: nat)
    requires 1 < d < W && !IsPow2(d)
    ensures Check(Largest(d), Candidate(d), d) <==> FewOvershoots(d)
  {
    SmallMod(d - 1, d);
    LargestIsLargest(d, d - 1);
    CandidateError(d);
    ReductionValue(Largest(d), d);
  }

  lemma LargestIsProbed(d: nat)
    requires 1 < d < W && W <= 3 * d - 1
    ensures Largest(d) == Probes(d)[2] || Largest(d) == Probes(d)[6]
  {
    if W < 2 * d {
      QuotientIs(W, d, 1);
    } else {
      QuotientIs(W, d, 2);
      if 2 * d < W {
        WrapSmall(d * 2);
        WrapSmall(d * 2 - 1);
      }
    }
  }

  /** Seven has no exact 64-bit reciprocal: its candidate fails on 2^64 - 3. */
  lemma SevenIsNotExact()
    ensures !IsPow2(7) && !Exact(7) && Largest(7) == W - 3 && FastReduce(W - 3, Candidate(7), 7) == MAX_WORD
  {
    SevenOvershoot();
    ReductionValue(W - 3, 7);
    ExactIff(7);
  }

  lemma SevenOvershoot()
    ensures FloorLog2(7) == 2 && Pow2(2) == 4 && Pow2(66) == 4 * W && Overshoot(7) == 6
  {
    assert FloorLog2(7) == 1 + FloorLog2(3) == 2 + FloorLog2(1);
    assert Pow2(2) == 2 * Pow2(1) == 4 * Pow2(0);
    ShiftedPower(2);
    NumeratorIs(7, 2);
  }
}
