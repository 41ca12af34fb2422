/**
 Division by multiplication: the 64-bit magic of `src/pom_gpu.rs` and the 65-bit round-up magic of
 `keryx-vulkan/src/bench.rs`. Words are naturals below 2^64 and every wrap-around is written out.
 */
module FastMod {
  import opened Numbers

  const W: nat := 0x1_0000_0000_0000_0000

  function Pow2(n: nat): (p: nat)
    ensures p > 0
  {
    if n == 0 then 1 else 2 * Pow2(n - 1)
  }

  lemma {:induction false} Pow2Add(a: nat, b: nat)
    ensures Pow2(a + b) == Pow2(a) * Pow2(b)
  {
    if a > 0 {
      Pow2Add(a - 1, b);
      assert Pow2(a) * Pow2(b) == 2 * (Pow2(a - 1) * Pow2(b)) by {
        MulAssoc(2, Pow2(a - 1), Pow2(b));
      }
    }
  }

  lemma MulAssoc(a: int, b: int, c: int)
    ensures (a * b) * c == a * (b * c)
  {
  }

  lemma PowSquare(n: nat, v: nat)
    requires Pow2(n) == v
    ensures Pow2(n + n) == v * v
  {
    Pow2Add(n, n);
  }

  lemma Pow64()
    ensures Pow2(64) == W
  {
    assert Pow2(1) == 2;
    PowSquare(1, 2);
    PowSquare(2, 4);
    PowSquare(4, 0x10);
    PowSquare(8, 0x100);
    PowSquare(16, 0x1_0000);
    PowSquare(32, 0x1_0000_0000);
  }

  lemma {:induction false} TopBit(d: nat)
    requires d > 0
    ensures Pow2(FloorLog2(d)) <= d < 2 * Pow2(FloorLog2(d))
  {
    if d > 1 {
      TopBit(d / 2);
    }
  }

  lemma {:induction false} Pow2Mono(a: nat, b: nat)
    requires a <= b
    ensures Pow2(a) <= Pow2(b)
    decreases b - a
  {
    if a < b {
      Pow2Mono(a + 1, b);
    }
  }

  lemma {:induction false} LogOfPow2(b: nat)
    ensures FloorLog2(Pow2(b)) == b
  {
    if b > 0 {
      LogOfPow2(b - 1);
    }
  }

  lemma LogBelow64(d: nat)
    requires 0 < d < W
    ensures FloorLog2(d) <= 63
  {
    TopBit(d);
    Pow64();
    if FloorLog2(d) > 63 {
      Pow2Mono(64, FloorLog2(d));
    }
  }

  predicate IsPow2(d: nat)
    requires d > 0
  {
    d == Pow2(FloorLog2(d))
  }

  // ---------- nonlinear basics ----------

  lemma MulLe(a: nat, b: nat, c: nat)
    requires a <= b
    ensures a * c <= b * c
  {
  }

  lemma MulLt(a: nat, b: nat, c: nat)
    requires a < b && c > 0
    ensures a * c < b * c
  {
  }

  lemma CancelLe(a: nat, b: nat, c: nat)
    requires a * c <= b * c && c > 0
    ensures a <= b
  {
    if a > b {
      MulLt(b, a, c);
    }
  }

  lemma CancelLt(a: nat, b: nat, c: nat)
    requires a * c < b * c
    ensures a < b
  {
    if a >= b {
      MulLe(b, a, c);
    }
  }

  /** The quotient is the number whose multiple brackets the dividend. */
  lemma QuotientIs(x: nat, d: nat, q: nat)
    requires d > 0 && q * d <= x < (q + 1) * d
    ensures x / d == q
  {
    var k := x / d;
    assert k * d <= x < (k + 1) * d by {
      assert x == d * k + x % d;
      assert d * k == k * d && (k + 1) * d == k * d + d;
    }
    if k < q {
      MulLe(k + 1, q, d);
    } else if q < k {
      MulLe(q + 1, k, d);
    }
  }

  lemma ModIs(x: nat, d: nat, q: nat, r: nat)
    requires r < d && x == q * d + r
    ensures x % d == r
  {
    assert (q + 1) * d == q * d + d;
    QuotientIs(x, d, q);
    DivMod(x, d);
  }

  /** Dividing twice is dividing by the product. */
  lemma DivDiv(x: nat, a: nat, b: nat)
    requires a > 0 && b > 0
    ensures a * b > 0 && (x / a) / b == x / (a * b)
  {
    var y, q := x / a, x / a / b;
    DivMod(x, a);
    DivMod(y, b);
    MulAssoc(q, b, a);
    assert b * a == a * b;
    assert q * (a * b) == (q * b) * a;
    MulLe(q * b, y, a);
    assert y + 1 <= (q + 1) * b by {
      assert (q + 1) * b == q * b + b;
    }
    MulLe(y + 1, (q + 1) * b, a);
    assert (y + 1) * a == y * a + a;
    MulAssoc(q + 1, b, a);
    MulPositive(a, b);
    QuotientIs(x, a * b, q);
  }

  lemma MulPositive(a: nat, b: nat)
    requires a > 0 && b > 0
    ensures a * b > 0
  {
  }

  // ---------- the quotient of a rounded-up reciprocal ----------

  /** `a * m`, times the divisor, split at the honest quotient. */
  lemma Split(a: nat, d: nat, m: nat, p: nat, e: nat)
    requires d > 0 && m * d == p + e
    ensures (a * m) * d == (a / d * p) * d + (a % d * p + a * e)
  {
    var q, r := a / d, a % d;
    DivMod(a, d);
    MulAssoc(a, m, d);
    assert a * (p + e) == a * p + a * e;
    assert (q * d + r) * p == (q * d) * p + r * p;
    assert (q * d) * p == (q * p) * d;
  }

  lemma Bracket(x: nat, q: nat, p: nat, d: nat, s: nat)
    requires p > 0 && d > 0 && x * d == (q * p) * d + s && s < p * d
    ensures x / p == q
  {
    CancelLe(q * p, x, d);
    assert (q * p + p) * d == (q * p) * d + p * d;
    CancelLt(x, q * p + p, d);
    assert (q + 1) * p == q * p + p;
    QuotientIs(x, p, q);
  }

  lemma BracketNext(x: nat, q: nat, p: nat, d: nat, s: nat)
    requires p > 0 && d > 0 && x * d == (q * p) * d + s && p * d <= s < 2 * (p * d)
    ensures x / p == q + 1
  {
    assert (q + 1) * p == q * p + p;
    assert (q * p + p) * d == (q * p) * d + p * d;
    Bracket(x, q + 1, p, d, s - p * d);
  }

  lemma RemainderPart(r: nat, d: nat, p: nat, t: nat)
    requires r < d && p > 0 && t < 2 * p
    ensures r == d - 1 && t >= p ==> p * d <= r * p + t < 2 * (p * d)
    ensures !(r == d - 1 && t >= p) ==> r * p + t < p * d
  {
    assert d * p == p * d;
    assert (r + 1) * p == r * p + p;
    MulLe(1, d, p);
    if r < d - 1 {
      MulLe(r + 2, d, p);
      assert (r + 2) * p == r * p + 2 * p;
    }
  }

  lemma RemainderCases(x: nat, q: nat, r: nat, d: nat, p: nat, t: nat)
    requires r < d && p > 0 && t < 2 * p && x * d == (q * p) * d + (r * p + t)
    ensures x / p == q + (if r == d - 1 && t >= p then 1 else 0)
  {
    RemainderPart(r, d, p, t);
    if r == d - 1 && t >= p {
      BracketNext(x, q, p, d, r * p + t);
    } else {
      Bracket(x, q, p, d, r * p + t);
    }
  }

  /** A reciprocal too large by less than two units misses the quotient by one, and only just below a multiple of `d`. */
  lemma MagicQuotient(a: nat, d: nat, m: nat, p: nat, e: nat)
    requires d > 0 && p > 0 && m * d == p + e && a * e < 2 * p
    ensures a * m / p == a / d + (if a % d == d - 1 && a * e >= p then 1 else 0)
  {
    Split(a, d, m, p, e);
    RemainderCases(a * m, a / d, a % d, d, p, a * e);
  }

  // ---------- machine words ----------

  function Wrap(x: int): (w: nat)
    ensures w < W
  {
    x % W
  }

  lemma WrapSmall(x: nat)
    requires x < W
    ensures Wrap(x) == x
  {
    QuotientIs(x, W, 0);
    DivMod(x, W);
  }

  function MulHi(a: nat, b: nat): nat {
    a * b / W
  }

  lemma {:induction false} ShiftRightIsDiv(x: nat, s: nat)
    ensures ShiftRight(x, s) == x / Pow2(s)
  {
    if s > 0 {
      ShiftRightIsDiv(x / 2, s - 1);
      DivDiv(x, 2, Pow2(s - 1));
    }
  }

  // ---------- keryx-vulkan/src/bench.rs ----------

  /** Bitwise `&`. */
  function And(a: nat, b: nat): nat {
    if a == 0 then 0 else (a % 2) * (b % 2) + 2 * And(a / 2, b / 2)
  }

  lemma {:induction false} AndMask(n: nat, l: nat)
    ensures And(n, Pow2(l) - 1) == n % Pow2(l)
    decreases l
  {
    if n == 0 {
      QuotientIs(0, Pow2(l), 0);
      DivMod(0, Pow2(l));
    } else if l > 0 {
      var p := Pow2(l - 1);
      AndMask(n / 2, l - 1);
      assert (2 * p - 1) / 2 == p - 1 && (2 * p - 1) % 2 == 1;
      ModTwice(n, p);
    } else {
      AndZero(n);
    }
  }

  lemma ModTwice(n: nat, p: nat)
    requires p > 0
    ensures n % (2 * p) == n % 2 + 2 * (n / 2 % p)
  {
    DivMod(n / 2, p);
    ModTwiceOf(n, p, n / 2 / p, n / 2 % p, n % 2);
  }

  lemma ModTwiceOf(n: nat, p: nat, q: nat, r: nat, b: nat)
    requires r < p && b <= 1 && n == 2 * (q * p + r) + b
    ensures n % (2 * p) == b + 2 * r
  {
    assert q * (2 * p) == 2 * (q * p);
    ModIs(n, 2 * p, q, b + 2 * r);
  }

  lemma {:induction false} AndZero(n: nat)
    ensures And(n, 0) == 0
  {
    if n > 0 {
      AndZero(n / 2);
    }
  }

  /** Doubling with wrap-around, from the quotient and remainder of `num`. */
  function DoubledMagic(proposed: nat, rem: nat, d: nat): nat {
    var twice := Wrap(rem + rem);
    var m := Wrap(proposed + proposed);
    var m' := if twice >= d || twice < rem then Wrap(m + 1) else m;
    Wrap(m' + 1)
  }

  /** Constants of the round-up scheme: magic word, shift, and whether the divisor is a power of two. */
  function MagicGen(d: nat): (nat, nat, bool)
    requires 0 < d < W
  {
    var l := FloorLog2(d);
    if IsPow2(d) then (0, l, true)
    else
      var num := Pow2(64 + l);
      (DoubledMagic(Wrap(num / d), Wrap(num % d), d), l, false)
  }

  function ModMagicHost(n: nat, d: nat, magic: nat, shift: nat, isPow2: bool): nat
    requires d > 0
  {
    if isPow2 then And(n, d - 1)
    else
      var q := MulHi(magic, n);
      var t := Wrap(Wrap(n - q) / 2 + q);
      Wrap(n - Wrap(ShiftRight(t, shift) * d))
  }

  /** Doubling a quotient and its remainder. */
  lemma DoubleQuotient(num: nat, d: nat)
    requires d > 0
    ensures 2 * num / d == 2 * (num / d) + (if 2 * (num % d) >= d then 1 else 0)
  {
    DivMod(num, d);
    DoubleQuotientOf(num, d, num / d, num % d);
  }

  lemma DoubleQuotientOf(num: nat, d: nat, q: nat, r: nat)
    requires r < d && num == q * d + r
    ensures 2 * num / d == 2 * q + (if 2 * r >= d then 1 else 0)
  {
    assert (2 * q) * d == 2 * (q * d) && (2 * q + 1) * d == 2 * (q * d) + d && (2 * q + 2) * d == 2 * (q * d) + 2 * d;
    QuotientIs(2 * num, d, if 2 * r >= d then 2 * q + 1 else 2 * q);
  }

  /** The carry test on the wrapped double remainder is the test on the true one. */
  lemma CarryTest(rem: nat, d: nat)
    requires rem < d < W
    ensures (Wrap(rem + rem) >= d || Wrap(rem + rem) < rem) <==> 2 * rem >= d
  {
    if rem + rem < W {
      WrapSmall(rem + rem);
    } else {
      WrapOver(rem + rem);
    }
  }

  lemma WrapOver(x: nat)
    requires W <= x < 2 * W
    ensures Wrap(x) == x - W
  {
    QuotientIs(x, W, 1);
    DivMod(x, W);
  }

  /** The generated word is the 65-bit reciprocal without its top bit. */
  lemma MagicGenIsReciprocal(d: nat)
    requires 0 < d < W && !IsPow2(d)
    ensures var (magic, l, pow2) := MagicGen(d);
            !pow2 && l == FloorLog2(d) && magic < W && W + magic == Pow2(65 + l) / d + 1
  {
    var l := FloorLog2(d);
    TopBit(d);
    ShiftedPower(l);
    DoubledReciprocal(Pow2(64 + l), d, Pow2(l));
  }

  lemma ShiftedPower(l: nat)
    ensures Pow2(64 + l) == W * Pow2(l) && Pow2(65 + l) == 2 * Pow2(64 + l)
  {
    Pow64();
    Pow2Add(64, l);
  }

  lemma DoubledReciprocal(num: nat, d: nat, p: nat)
    requires 0 < d < W && p < d < 2 * p && num == W * p
    ensures W + DoubledMagic(Wrap(num / d), Wrap(num % d), d) == 2 * num / d + 1
  {
    QuotientBounds(num, d, p);
    DoubleQuotient(num, d);
    DivMod(num, d);
    DoubledTail(num / d, num % d, d, 2 * num / d);
  }

  lemma DoubledTail(q: nat, r: nat, d: nat, q2: nat)
    requires q < W && r < d < W && q2 == 2 * q + (if 2 * r >= d then 1 else 0) && W <= q2 < 2 * W - 1
    ensures W + DoubledMagic(Wrap(q), Wrap(r), d) == q2 + 1
  {
    WrapSmall(q);
    WrapSmall(r);
    CarryTest(r, d);
    WrapTail(q, if 2 * r >= d then 1 else 0);
  }

  lemma QuotientBelow(x: nat, d: nat, k: nat)
    requires d > 0 && x < k * d
    ensures x / d < k
  {
    DivMod(x, d);
    CancelLt(x / d, k, d);
  }

  lemma QuotientAtLeast(x: nat, d: nat, k: nat)
    requires d > 0 && k * d <= x
    ensures x / d >= k
  {
    DivMod(x, d);
    assert (x / d + 1) * d == (x / d) * d + d;
    CancelLt(k, x / d + 1, d);
  }

  /** `2^64 <= 2^(65+l) / d < 2^65 - 1` and `2^(64+l) / d < 2^64` for a divisor strictly between two powers. */
  lemma QuotientBounds(num: nat, d: nat, p: nat)
    requires 0 < d < W && p < d < 2 * p && num == W * p
    ensures num / d < W && W <= 2 * num / d < 2 * W - 1
  {
    MulLt(p, d, W);
    assert p * W == W * p && d * W == W * d;
    QuotientBelow(num, d, W);
    MulLt(d, 2 * p, W);
    assert (2 * p) * W == 2 * (W * p);
    QuotientAtLeast(2 * num, d, W);
    MulLe(p + 1, d, 2 * W - 1);
    assert (p + 1) * (2 * W - 1) == 2 * (W * p) - p + (2 * W - 1);
    assert d * (2 * W - 1) == (2 * W - 1) * d;
    QuotientBelow(2 * num, d, 2 * W - 1);
  }

  /** Wrapped doubling and the two increments land on the exact value minus 2^64. */
  lemma WrapTail(q: nat, c: nat)
    requires q < W && c <= 1 && W <= 2 * q + c + 1 < 2 * W
    ensures Wrap((if c == 1 then Wrap(Wrap(q + q) + 1) else Wrap(q + q)) + 1) == 2 * q + c + 1 - W
  {
    if q + q < W {
      WrapSmall(q + q);
    } else {
      WrapOver(q + q);
    }
    var m := Wrap(q + q);
    WrapSmall(m + 1);
    var m' := if c == 1 then Wrap(m + 1) else m;
    if m' + 1 < W {
      WrapSmall(m' + 1);
    } else {
      WrapOver(m' + 1);
    }
  }

  /** The averaging step computes `(n + q) / 2` although `n + q` may not fit a word. */
  lemma Averaging(n: nat, q: nat)
    requires q <= n < W
    ensures Wrap(Wrap(n - q) / 2 + q) == (n + q) / 2
  {
    WrapSmall(n - q);
    assert (n - q) / 2 + q == (n + q) / 2;
    WrapSmall((n - q) / 2 + q);
  }

  /** The round-up reduction is `%` for every divisor and every word. */
  lemma ModMagicHostExact(n: nat, d: nat)
    requires 0 < d < W && n < W
    ensures var (magic, shift, pow2) := MagicGen(d); ModMagicHost(n, d, magic, shift, pow2) == n % d
  {
    var l := FloorLog2(d);
    if IsPow2(d) {
      AndMask(n, l);
    } else {
      MagicGenIsReciprocal(d);
      TopBit(d);
      RoundUpExact(n, d, MagicGen(d).0, l);
    }
  }

  lemma RoundUpExact(n: nat, d: nat, m: nat, l: nat)
    requires 0 < d < W && n < W && m < W && d < 2 * Pow2(l) && W + m == Pow2(65 + l) / d + 1
    ensures ModMagicHost(n, d, m, l, false) == n % d
  {
    HighPart(n, m, l);
    Averaging(n, MulHi(m, n));
    RoundUpQuotient(n, d, W + m, l);
    Remainder(n, d);
  }

  lemma RoundUpQuotient(n: nat, d: nat, m: nat, l: nat)
    requires 0 < d && n < W && d < 2 * Pow2(l) && m == Pow2(65 + l) / d + 1
    ensures n * m / Pow2(65 + l) == n / d
  {
    var p := Pow2(65 + l);
    ReciprocalError(d, m, p);
    var e := m * d - p;
    ShiftedPower(l);
    SmallError(n, e, Pow2(l));
    MagicQuotient(n, d, m, p, e);
  }

  lemma SmallError(n: nat, e: nat, p: nat)
    requires n < W && e <= 2 * p && p > 0
    ensures n * e < 2 * (W * p)
  {
    MulLe(e, 2 * p, n);
    assert e * n == n * e;
    MulLt(n, W, 2 * p);
    assert n * (2 * p) == (2 * p) * n && W * (2 * p) == 2 * (W * p);
  }

  lemma ReciprocalError(d: nat, m: nat, p: nat)
    requires d > 0 && m == p / d + 1
    ensures p < m * d <= p + d
  {
    DivMod(p, d);
    assert m * d == (p / d) * d + d;
  }

  /** `((n + mulhi(n)) / 2) >> l` is the top of the 129-bit product. */
  lemma HighPart(n: nat, m: nat, l: nat)
    requires n < W && m < W
    ensures MulHi(m, n) <= n
    ensures ShiftRight((n + MulHi(m, n)) / 2, l) == n * (W + m) / Pow2(65 + l)
  {
    var q := MulHi(m, n);
    assert m * n == n * m;
    DivMod(n * m, W);
    MulLe(m, W, n);
    assert q <= n by {
      CancelLe(q, n, W);
    }
    assert n * (W + m) == n * W + n * m;
    assert n * (W + m) / W == n + q by {
      assert (n + q) * W == n * W + q * W && (n + q + 1) * W == n * W + q * W + W;
      QuotientIs(n * (W + m), W, n + q);
    }
    Pow64();
    ShiftRightIsDiv((n + q) / 2, l);
    DivDiv(n * (W + m), W, 2);
    DivDiv(n * (W + m), W * 2, Pow2(l));
    Pow2Add(65, l);
    assert Pow2(65) == 2 * Pow2(64);
  }

  lemma Remainder(n: nat, d: nat)
    requires 0 < d && n < W
    ensures Wrap(n - Wrap(n / d * d)) == n % d
  {
    DivMod(n, d);
    WrapSmall(n / d * d);
    WrapSmall(n % d);
  }
}
