/** Positional notation: digit lists in any base, and the multiply-and-add loop that turns one base into another. */
module Radix {
  import opened Numbers

  /** Least significant digit first. */
  function Value(ds: seq<nat>, base: nat): nat {
    if ds == [] then 0 else ds[0] + base * Value(ds[1..], base)
  }

  /** Most significant digit first. */
  function Big(xs: seq<nat>, base: nat): nat {
    if xs == [] then 0 else Big(xs[..|xs| - 1], base) * base + xs[|xs| - 1]
  }

  function Reverse(xs: seq<nat>): (r: seq<nat>)
    ensures |r| == |xs| && forall i :: 0 <= i < |xs| ==> r[i] == xs[|xs| - 1 - i]
  {
    if xs == [] then [] else Reverse(xs[1..]) + [xs[0]]
  }

  lemma {:induction false} BigIsReversed(xs: seq<nat>, base: nat)
    ensures Big(xs, base) == Value(Reverse(xs), base)
  {
    if xs != [] {
      var front, last := xs[..|xs| - 1], xs[|xs| - 1];
      BigIsReversed(front, base);
      assert Reverse(xs) == [last] + Reverse(front);
      assert Reverse(xs)[1..] == Reverse(front);
    }
  }

  predicate Digits(ds: seq<nat>, base: nat) {
    forall i :: 0 <= i < |ds| ==> ds[i] < base
  }

  predicate TopNonzero(ds: seq<nat>) {
    ds != [] && ds[|ds| - 1] != 0
  }

  /** The digits a number is written with: no leading zero, and `[0]` for zero. */
  predicate Canonical(ds: seq<nat>, base: nat) {
    Digits(ds, base) && (TopNonzero(ds) || ds == [0])
  }

  lemma {:induction false} TopMakesPositive(ds: seq<nat>, base: nat)
    requires base > 0 && TopNonzero(ds)
    ensures Value(ds, base) > 0
  {
    if |ds| > 1 {
      TopMakesPositive(ds[1..], base);
      Positive(base, Value(ds[1..], base));
    }
  }

  lemma Positive(a: nat, b: nat)
    requires a > 0 && b > 0
    ensures a * b > 0 && a * b >= a
  {
  }

  /** A number below the base plus a multiple of it determines both. */
  lemma SplitUnique(r: nat, q: nat, r': nat, q': nat, base: nat)
    requires r < base && r' < base && r + base * q == r' + base * q'
    ensures r == r' && q == q'
  {
    if q < q' {
      assert base * q' == base * q + base * (q' - q);
      Positive(base, q' - q);
    } else if q' < q {
      assert base * q == base * q' + base * (q - q');
      Positive(base, q - q');
    }
  }

  /** Digits without a leading zero are determined by their value. */
  lemma {:induction false} Unique(a: seq<nat>, b: seq<nat>, base: nat)
    requires base > 0 && Digits(a, base) && Digits(b, base)
    requires (a == [] || TopNonzero(a)) && (b == [] || TopNonzero(b))
    requires Value(a, base) == Value(b, base)
    ensures a == b
  {
    if a != [] && b != [] {
      SplitUnique(a[0], Value(a[1..], base), b[0], Value(b[1..], base), base);
      Unique(a[1..], b[1..], base);
      assert a == [a[0]] + a[1..] && b == [b[0]] + b[1..];
    } else {
      if a != [] {
        TopMakesPositive(a, base);
      }
      if b != [] {
        TopMakesPositive(b, base);
      }
    }
  }

  lemma CanonicalUnique(a: seq<nat>, b: seq<nat>, base: nat)
    requires base > 0 && Canonical(a, base) && Canonical(b, base) && Value(a, base) == Value(b, base)
    ensures a == b
  {
    if TopNonzero(a) {
      TopMakesPositive(a, base);
    }
    if TopNonzero(b) {
      TopMakesPositive(b, base);
    }
    if TopNonzero(a) && TopNonzero(b) {
      Unique(a, b, base);
    } else {
      ZeroValue(base);
    }
  }

  lemma ZeroValue(base: nat)
    ensures Value([0], base) == 0
  {
    assert Value([0][1..], base) == 0;
  }

  // ---------- multiply and add ----------

  /** The digits still carried past the top. */
  function Spill(carry: nat, base: nat): seq<nat>
    requires base > 1
    decreases carry
  {
    if carry == 0 then []
    else
      Shrinks(carry, base);
      [carry % base] + Spill(carry / base, base)
  }

  lemma Shrinks(n: nat, base: nat)
    requires n > 0 && base > 1
    ensures n / base < n
  {
    DivMod(n, base);
    if n / base >= n {
      assert base * (n / base) == n / base + (base - 1) * (n / base);
      Positive(base - 1, n / base);
    }
  }

  /** `mul * ds + carry`, digit by digit. */
  function MulAdd(ds: seq<nat>, base: nat, mul: nat, carry: nat): seq<nat>
    requires base > 1
    decreases |ds|
  {
    if ds == [] then Spill(carry, base)
    else
      var c := carry + ds[0] * mul;
      [c % base] + MulAdd(ds[1..], base, mul, c / base)
  }

  lemma {:induction false} SpillValue(carry: nat, base: nat)
    requires base > 1
    ensures Value(Spill(carry, base), base) == carry && Digits(Spill(carry, base), base)
    ensures carry > 0 ==> TopNonzero(Spill(carry, base))
    decreases carry
  {
    if carry > 0 {
      Shrinks(carry, base);
      DivMod(carry, base);
      SpillValue(carry / base, base);
      SpillDigit(carry % base, Spill(carry / base, base), base, carry / base, carry);
    }
  }

  lemma SpillDigit(d: nat, ds: seq<nat>, base: nat, q: nat, n: nat)
    requires d < base && Value(ds, base) == q && Digits(ds, base) && n == q * base + d
    ensures Value([d] + ds, base) == n && Digits([d] + ds, base)
  {
    PushValue(d, ds, base);
  }

  lemma PushValue(d: nat, ds: seq<nat>, base: nat)
    ensures Value([d] + ds, base) == d + base * Value(ds, base)
  {
    assert ([d] + ds)[1..] == ds;
  }

  lemma {:induction false} MulAddValue(ds: seq<nat>, base: nat, mul: nat, carry: nat)
    requires base > 1
    ensures Value(MulAdd(ds, base, mul, carry), base) == Value(ds, base) * mul + carry
    decreases |ds|
  {
    if ds == [] {
      SpillValue(carry, base);
    } else {
      var c: nat := carry + ds[0] * mul;
      DivMod(c, base);
      MulAddValue(ds[1..], base, mul, c / base);
      PushValue(c % base, MulAdd(ds[1..], base, mul, c / base), base);
      MulAddStep(base, Value(ds[1..], base), mul, ds[0], carry, c / base, c % base);
    }
  }

  lemma MulAddStep(base: nat, v: nat, mul: nat, d: nat, carry: nat, q: nat, low: nat)
    requires carry + d * mul == q * base + low
    ensures low + base * (v * mul + q) == (d + base * v) * mul + carry
  {
    Distribute(base, v, mul, q, d);
  }

  lemma Distribute(base: nat, v: nat, mul: nat, q: nat, d: nat)
    ensures base * (v * mul + q) == (base * v) * mul + base * q
    ensures (d + base * v) * mul == d * mul + (base * v) * mul
  {
  }

  lemma {:induction false} MulAddDigits(ds: seq<nat>, base: nat, mul: nat, carry: nat)
    requires base > 1
    ensures Digits(MulAdd(ds, base, mul, carry), base)
    ensures TopNonzero(ds) && mul > 0 ==> TopNonzero(MulAdd(ds, base, mul, carry))
    decreases |ds|
  {
    if ds == [] {
      SpillValue(carry, base);
    } else {
      var c := carry + ds[0] * mul;
      DivMod(c, base);
      MulAddDigits(ds[1..], base, mul, c / base);
      if |ds| == 1 {
        SpillValue(c / base, base);
        if ds[0] > 0 && mul > 0 {
          Positive(ds[0], mul);
        }
      }
    }
  }

  lemma MulAddCanonical(ds: seq<nat>, base: nat, mul: nat, carry: nat)
    requires base > 1 && mul > 0 && Canonical(ds, base)
    ensures Canonical(MulAdd(ds, base, mul, carry), base)
  {
    MulAddDigits(ds, base, mul, carry);
    if ds == [0] {
      SpillValue(carry / base, base);
      DivMod(carry, base);
      assert MulAdd(ds, base, mul, carry) == [carry % base] + Spill(carry / base, base);
    }
  }

  // ---------- changing base ----------

  /** The digits of `xs` in another base, least significant first. */
  function Fold(xs: seq<nat>, from: nat, to: nat): seq<nat>
    requires to > 1
  {
    if xs == [] then [0] else MulAdd(Fold(xs[..|xs| - 1], from, to), to, from, xs[|xs| - 1])
  }

  lemma {:induction false} FoldIs(xs: seq<nat>, from: nat, to: nat)
    requires from > 1 && to > 1
    ensures Canonical(Fold(xs, from, to), to) && Value(Fold(xs, from, to), to) == Big(xs, from)
  {
    if xs == [] {
      ZeroValue(to);
    } else {
      var front, last := xs[..|xs| - 1], xs[|xs| - 1];
      FoldIs(front, from, to);
      MulAddCanonical(Fold(front, from, to), to, from, last);
      MulAddValue(Fold(front, from, to), to, from, last);
    }
  }

  function LeadingZeros(xs: seq<nat>): (n: nat)
    ensures n <= |xs| && forall i :: 0 <= i < n ==> xs[i] == 0
    ensures n < |xs| ==> xs[n] != 0
  {
    if xs != [] && xs[0] == 0 then 1 + LeadingZeros(xs[1..]) else 0
  }

  function Zeros(n: nat): seq<nat> {
    seq(n, _ => 0)
  }

  /** Base change as both programs do it: as many leading zeros as the input has, then the digits of its value. */
  function Convert(xs: seq<nat>, from: nat, to: nat): seq<nat>
    requires to > 1
  {
    Zeros(LeadingZeros(xs)) + Reverse(Fold(xs, from, to))
  }

  predicate HasNonzero(xs: seq<nat>) {
    LeadingZeros(xs) < |xs|
  }

  lemma {:induction false} LeadingZerosOf(n: nat, ys: seq<nat>)
    ensures LeadingZeros(Zeros(n) + ys) == n + LeadingZeros(ys)
  {
    if n == 0 {
      assert Zeros(0) + ys == ys;
    } else {
      assert (Zeros(n) + ys)[1..] == Zeros(n - 1) + ys;
      LeadingZerosOf(n - 1, ys);
    }
  }

  lemma {:induction false} BigDropsZeros(n: nat, ys: seq<nat>, base: nat)
    ensures Big(Zeros(n) + ys, base) == Big(ys, base)
    decreases n + |ys|
  {
    if ys == [] {
      assert Zeros(n) + ys == Zeros(n);
      if n > 0 {
        assert Zeros(n)[..n - 1] == Zeros(n - 1) + [];
        BigDropsZeros(n - 1, [], base);
      }
    } else {
      assert (Zeros(n) + ys)[..n + |ys| - 1] == Zeros(n) + ys[..|ys| - 1];
      BigDropsZeros(n, ys[..|ys| - 1], base);
    }
  }

  /** The zeros in front and the rest. */
  lemma SplitZeros(xs: seq<nat>)
    ensures xs == Zeros(LeadingZeros(xs)) + xs[LeadingZeros(xs)..]
  {
    assert xs[..LeadingZeros(xs)] == Zeros(LeadingZeros(xs));
  }

  /** The significant digits of a list, and of its conversion, are both canonical. */
  lemma SignificantPart(xs: seq<nat>, base: nat)
    requires base > 1 && Digits(xs, base) && HasNonzero(xs)
    ensures var ys := xs[LeadingZeros(xs)..]; Canonical(Reverse(ys), base) && Value(Reverse(ys), base) == Big(xs, base)
    ensures Big(xs, base) > 0
  {
    var n := LeadingZeros(xs);
    SplitZeros(xs);
    BigDropsZeros(n, xs[n..], base);
    BigIsReversed(xs[n..], base);
    TopMakesPositive(Reverse(xs[n..]), base);
  }

  /** Leading zeros and value survive a conversion that has a nonzero digit. */
  lemma ConvertKeeps(xs: seq<nat>, from: nat, to: nat)
    requires from > 1 && to > 1 && Digits(xs, from) && HasNonzero(xs)
    ensures var zs := Convert(xs, from, to);
            Digits(zs, to) && HasNonzero(zs) && LeadingZeros(zs) == LeadingZeros(xs) && Big(zs, to) == Big(xs, from)
  {
    var ds := Fold(xs, from, to);
    FoldIs(xs, from, to);
    SignificantPart(xs, from);
    ZeroValue(to);
    LeadingZerosOf(LeadingZeros(xs), Reverse(ds));
    BigDropsZeros(LeadingZeros(xs), Reverse(ds), to);
    BigIsReversed(Reverse(ds), to);
    assert Reverse(Reverse(ds)) == ds;
  }

  /** Converting there and back is the identity on every list with a nonzero digit. */
  lemma RoundTrip(xs: seq<nat>, from: nat, to: nat)
    requires from > 1 && to > 1 && Digits(xs, from) && HasNonzero(xs)
    ensures Convert(Convert(xs, from, to), to, from) == xs
  {
    var zs := Convert(xs, from, to);
    ConvertKeeps(xs, from, to);
    FoldIs(zs, to, from);
    SignificantPart(xs, from);
    var ys := xs[LeadingZeros(xs)..];
    CanonicalUnique(Fold(zs, to, from), Reverse(ys), from);
    assert Reverse(Reverse(ys)) == ys;
    SplitZeros(xs);
  }

  /** A list of zeros gains one digit with every conversion. */
  lemma ZerosGrow(n: nat, from: nat, to: nat)
    requires from > 1 && to > 1
    ensures Convert(Zeros(n), from, to) == Zeros(n + 1)
  {
    LeadingZerosOf(n, []);
    assert Zeros(n) + [] == Zeros(n);
    FoldOfZeros(n, from, to);
    assert Reverse([0]) == [0];
  }

  lemma FoldOfZeros(n: nat, from: nat, to: nat)
    requires from > 1 && to > 1
    ensures Fold(Zeros(n), from, to) == [0]
  {
    assert Zeros(n) + [] == Zeros(n);
    BigDropsZeros(n, [], from);
    FoldIs(Zeros(n), from, to);
    ZeroValue(to);
    CanonicalUnique(Fold(Zeros(n), from, to), [0], to);
  }

  lemma NoNonzeroIsZeros(xs: seq<nat>)
    requires !HasNonzero(xs)
    ensures xs == Zeros(|xs|)
  {
  }

  /** The round trip holds exactly for the lists with a nonzero digit. */
  lemma RoundTripIff(xs: seq<nat>, from: nat, to: nat)
    requires from > 1 && to > 1 && Digits(xs, from)
    ensures Convert(Convert(xs, from, to), to, from) == xs <==> HasNonzero(xs)
  {
    if HasNonzero(xs) {
      RoundTrip(xs, from, to);
    } else {
      NoNonzeroIsZeros(xs);
      ZerosGrow(|xs|, from, to);
      ZerosGrow(|xs| + 1, to, from);
      assert |Zeros(|xs| + 2)| == |xs| + 2;
    }
  }
}
