/** The 256-bit targets of `src/target.rs`: four little-endian 64-bit words, shifted, compared and decoded. */
module Target {
  import opened Numbers
  import opened FastMod
  import R = Radix

  /** Four words, least significant first. */
  predicate IsU256(x: seq<nat>) {
    |x| == 4 && R.Digits(x, W)
  }

  function Number(x: seq<nat>): nat {
    R.Value(x, W)
  }

  // ---------- order ----------

  datatype Ordering = Less | Equal | Greater

  lemma {:induction false} TopDigitDecides(a: seq<nat>, b: seq<nat>, i: nat, base: nat)
    requires i < |a| == |b| && a[i + 1..] == b[i + 1..] && a[i] < b[i]
    requires R.Digits(a, base) && R.Digits(b, base)
    ensures R.Value(a, base) < R.Value(b, base)
  {
    if i == 0 {
      assert a[1..] == b[1..];
    } else {
      assert a[1..][i..] == a[i + 1..] && b[1..][i..] == b[i + 1..];
      TopDigitDecides(a[1..], b[1..], i - 1, base);
      NextMultiple(base, R.Value(a[1..], base), R.Value(b[1..], base));
    }
  }

  lemma NextMultiple(base: nat, p: nat, q: nat)
    requires p < q
    ensures base * p + base <= base * q
  {
    MulLe(p + 1, q, base);
    assert (p + 1) * base == base * p + base && q * base == base * q;
  }

  /** `Ord::cmp`: words compared from the top, the first difference decides. */
  method Cmp(a: seq<nat>, b: seq<nat>) returns (o: Ordering)
    requires IsU256(a) && IsU256(b)
    ensures o == if Number(a) < Number(b) then Less else if Number(a) == Number(b) then Equal else Greater
  {
    var i := 4;
    while i > 0
      invariant 0 <= i <= 4 && a[i..] == b[i..]
    {
      i := i - 1;
      if a[i] < b[i] {
        TopDigitDecides(a, b, i, W);
        return Less;
      }
      if a[i] > b[i] {
        TopDigitDecides(b, a, i, W);
        return Greater;
      }
    }
    assert a == b;
    return Equal;
  }

  // ---------- shift ----------

  /** `w << b` on a word. */
  function LowPart(w: nat, b: nat): nat {
    Wrap(w * Pow2(b))
  }

  /** What a shift by `b` moves into the next word. */
  function HighPart64(w: nat, b: nat): nat
    requires 0 < b < 64
  {
    ShiftRight(w, 64 - b)
  }

  function Carry(x: seq<nat>, i: int, b: nat): nat
    requires b < 64 && |x| == 4
  {
    if b > 0 && 0 <= i < 4 then HighPart64(x[i], b) else 0
  }

  /** Word `j` of the shifted number. */
  function Cell(x: seq<nat>, j: nat, ws: nat, b: nat): nat
    requires b < 64 && |x| == 4
  {
    (if 0 <= j - ws < 4 then LowPart(x[j - ws], b) else 0) + Carry(x, j - ws - 1, b)
  }

  /** A word splits around the shift: the low part leaves room for any carry. */
  lemma SplitWord(w: nat, b: nat)
    requires w < W && 0 < b < 64
    ensures w * Pow2(b) == LowPart(w, b) + W * HighPart64(w, b)
    ensures LowPart(w, b) + Pow2(b) <= W && HighPart64(w, b) < Pow2(b)
  {
    Pow64();
    Pow2Add(b, 64 - b);
    ShiftRightIsDiv(w, 64 - b);
    SplitBy(w, Pow2(b), Pow2(64 - b));
  }

  lemma SplitBy(w: nat, p: nat, q: nat)
    requires w < W && p > 0 && q > 0 && p * q == W
    ensures w * p == Wrap(w * p) + W * (w / q) && Wrap(w * p) + p <= W && w / q < p
  {
    DivMod(w, q);
    QuotientBelow(w, q, p);
    ShiftSplit(w, p, q, w / q, w % q);
    ModIs(w * p, W, w / q, w % q * p);
  }

  lemma ShiftSplit(w: nat, p: nat, q: nat, h: nat, r: nat)
    requires p > 0 && p * q == W && w == h * q + r && r < q
    ensures w * p == h * W + r * p && r * p + p <= W
  {
    assert (h * q) * p == h * (p * q);
    assert (h * q + r) * p == (h * q) * p + r * p;
    MulLe(r + 1, q, p);
    assert (r + 1) * p == r * p + p && q * p == p * q;
  }

  lemma CellFits(x: seq<nat>, j: nat, ws: nat, b: nat)
    requires IsU256(x) && b < 64
    ensures Cell(x, j, ws, b) < W
  {
    if b > 0 {
      if 0 <= j - ws < 4 {
        SplitWord(x[j - ws], b);
      }
      if 0 <= j - ws - 1 < 4 {
        SplitWord(x[j - ws - 1], b);
      }
      Pow64();
      Pow2Mono(b, 64);
    }
  }

  /** The words after a shift by `ws` words and `b` bits. */
  function Shifted(x: seq<nat>, ws: nat, b: nat): (r: seq<nat>)
    requires |x| == 4 && b < 64
    ensures |r| == 4
  {
    seq(4, j requires 0 <= j < 4 => Cell(x, j, ws, b))
  }

  /** The words written so far: all of words below `i`, and the carry out of word `i - 1`. */
  ghost predicate Filled(ret: seq<nat>, x: seq<nat>, ws: nat, b: nat, i: nat)
    requires b < 64 && |x| == 4
  {
    |ret| == 4
    && (forall j: nat :: j < 4 && j < ws + i ==> ret[j] == Cell(x, j, ws, b))
    && (forall j: nat :: ws + i <= j < 4 ==> ret[j] == if j == ws + i then Carry(x, i - 1, b) else 0)
  }

  /** `<<`: neither addition overflows a word. */
  method Shl(x: seq<nat>, shift: nat) returns (ret: seq<nat>)
    requires IsU256(x)
    ensures ret == Shifted(x, shift / 64, shift % 64) && IsU256(ret)
  {
    var ws, b := shift / 64, shift % 64;
    ret := [0, 0, 0, 0];
    for i := 0 to 4
      invariant Filled(ret, x, ws, b, i)
    {
      if i + ws < 4 {
        CellFits(x, i + ws, ws, b);
        assert ret[i + ws] + LowPart(x[i], b) < W;
        ret := ret[i + ws := ret[i + ws] + LowPart(x[i], b)];
      }
      if b > 0 && i + ws + 1 < 4 {
        CellFits(x, i + ws + 1, ws, b);
        assert ret[i + ws + 1] + HighPart64(x[i], b) < W;
        ret := ret[i + ws + 1 := ret[i + ws + 1] + HighPart64(x[i], b)];
      }
    }
    forall j | 0 <= j < 4
      ensures Cell(x, j, ws, b) < W
    {
      CellFits(x, j, ws, b);
    }
  }

  // ---------- the shift is a multiplication ----------

  const W2: nat := 0x1_0000_0000_0000_0000_0000_0000_0000_0000
  const W3: nat := 0x1_0000_0000_0000_0000_0000_0000_0000_0000_0000_0000_0000_0000
  /** 2^256. */
  const W4: nat := 0x1_0000_0000_0000_0000_0000_0000_0000_0000_0000_0000_0000_0000_0000_0000_0000_0000

  lemma WordPowers(k: nat)
    requires k <= 4
    ensures Pow2(64 * k) == if k == 0 then 1 else if k == 1 then W else if k == 2 then W2 else if k == 3 then W3 else W4
  {
    Pow64();
    if k > 0 {
      WordPowers(k - 1);
      Pow2Add(64, 64 * (k - 1));
    }
  }

  function Sum4(a: nat, b: nat, c: nat, d: nat): nat {
    a + W * b + W2 * c + W3 * d
  }

  lemma NumberIs(x: seq<nat>)
    requires |x| == 4
    ensures Number(x) == Sum4(x[0], x[1], x[2], x[3])
  {
    assert x[1..][1..] == x[2..] && x[2..][1..] == x[3..] && x[3..][1..] == [];
    assert R.Value(x[3..], W) == x[3];
    assert R.Value(x[2..], W) == x[2] + W * x[3];
    assert R.Value(x[1..], W) == x[1] + W * (x[2] + W * x[3]);
  }

  /** A word times the power is its low part and `W` times its carry, also when nothing is carried. */
  lemma WordTimes(x: seq<nat>, i: nat, b: nat)
    requires IsU256(x) && i < 4 && b < 64
    ensures x[i] * Pow2(b) == LowPart(x[i], b) + W * Carry(x, i, b)
  {
    if b > 0 {
      SplitWord(x[i], b);
    } else {
      WrapSmall(x[i]);
    }
  }

  lemma SumTimes(a: nat, b: nat, c: nat, d: nat, p: nat)
    ensures Sum4(a, b, c, d) * p == Sum4(a * p, b * p, c * p, d * p)
  {
    assert (W * b) * p == W * (b * p) && (W2 * c) * p == W2 * (c * p) && (W3 * d) * p == W3 * (d * p);
    assert (a + W * b + W2 * c + W3 * d) * p == a * p + (W * b) * p + (W2 * c) * p + (W3 * d) * p;
  }

  /** The product by the bit shift: four cells and what leaves at the top. */
  lemma BitShift(x: seq<nat>, b: nat)
    requires IsU256(x) && b < 64
    ensures Number(x) * Pow2(b)
         == Sum4(Cell(x, 0, 0, b), Cell(x, 1, 0, b), Cell(x, 2, 0, b), Cell(x, 3, 0, b)) + W4 * Carry(x, 3, b)
  {
    NumberIs(x);
    SumTimes(x[0], x[1], x[2], x[3], Pow2(b));
    WordTimes(x, 0, b);
    WordTimes(x, 1, b);
    WordTimes(x, 2, b);
    WordTimes(x, 3, b);
  }

  lemma CellShift(x: seq<nat>, j: nat, ws: nat, b: nat)
    requires |x| == 4 && b < 64
    ensures Cell(x, j, ws, b) == if j < ws then 0 else Cell(x, j - ws, 0, b)
  {
  }

  /** What four cells moved up by whole words leave below 2^256. */
  function Kept(a: nat, b: nat, c: nat, d: nat, ws: nat): nat {
    if ws == 0 then Sum4(a, b, c, d)
    else if ws == 1 then Sum4(0, a, b, c)
    else if ws == 2 then Sum4(0, 0, a, b)
    else if ws == 3 then Sum4(0, 0, 0, a)
    else 0
  }

  /** The low 256 bits. */
  function Low256(n: nat): nat {
    n % W4
  }

  lemma Low256Is(n: nat, q: nat, r: nat)
    requires n == q * W4 + r && r < W4
    ensures Low256(n) == r
  {
    ModIs(n, W4, q, r);
  }

  lemma MoveWords(a: nat, b: nat, c: nat, d: nat, e: nat, ws: nat)
    requires ws < 4 && Kept(a, b, c, d, ws) < W4
    ensures Low256((Sum4(a, b, c, d) + W4 * e) * Pow2(64 * ws)) == Kept(a, b, c, d, ws)
  {
    WordPowers(ws);
    var total := Sum4(a, b, c, d) + W4 * e;
    if ws == 0 {
      Low256Is(total * 1, e, Sum4(a, b, c, d));
    } else if ws == 1 {
      Low256Is(total * W, d + W * e, Sum4(0, a, b, c));
    } else if ws == 2 {
      Low256Is(total * W2, c + W * d + W2 * e, Sum4(0, 0, a, b));
    } else {
      Low256Is(total * W3, b + W * c + W2 * d + W3 * e, Sum4(0, 0, 0, a));
    }
  }

  lemma SumBelow(x: seq<nat>)
    requires IsU256(x)
    ensures Number(x) < W4
  {
    NumberIs(x);
  }

  lemma ShiftedNumber(x: seq<nat>, ws: nat, b: nat)
    requires IsU256(x) && b < 64
    ensures IsU256(Shifted(x, ws, b))
    ensures Number(Shifted(x, ws, b)) == Kept(Cell(x, 0, 0, b), Cell(x, 1, 0, b), Cell(x, 2, 0, b), Cell(x, 3, 0, b), ws)
  {
    var r := Shifted(x, ws, b);
    forall j | 0 <= j < 4
      ensures r[j] < W && r[j] == if j < ws then 0 else Cell(x, j - ws, 0, b)
    {
      CellFits(x, j, ws, b);
      CellShift(x, j, ws, b);
    }
    NumberIs(r);
  }

  lemma ShiftedOut(n: nat, shift: nat, k: nat)
    requires k == 4 && shift >= 64 * k
    ensures Low256(n * Pow2(shift)) == 0
  {
    var rest := shift - 64 * k;
    WordPowers(k);
    Pow2Add(rest, 64 * k);
    MulAssoc(n, Pow2(rest), W4);
    Low256Is(n * Pow2(shift), n * Pow2(rest), 0);
  }

  lemma ShiftedIn(x: seq<nat>, ws: nat, b: nat, r: nat)
    requires IsU256(x) && ws < 4 && b < 64 && r < W4
    requires r == Kept(Cell(x, 0, 0, b), Cell(x, 1, 0, b), Cell(x, 2, 0, b), Cell(x, 3, 0, b), ws)
    ensures Low256(Number(x) * Pow2(b) * Pow2(64 * ws)) == r
  {
    BitShift(x, b);
    MoveWords(Cell(x, 0, 0, b), Cell(x, 1, 0, b), Cell(x, 2, 0, b), Cell(x, 3, 0, b), Carry(x, 3, b), ws);
  }

  lemma TwoShifts(n: nat, b: nat, c: nat)
    ensures n * Pow2(b + c) == n * Pow2(b) * Pow2(c)
  {
    Pow2Add(b, c);
    MulAssoc(n, Pow2(b), Pow2(c));
  }

  lemma ShlBy(x: seq<nat>, ws: nat, b: nat)
    requires IsU256(x) && b < 64
    ensures IsU256(Shifted(x, ws, b)) && Number(Shifted(x, ws, b)) == Low256(Number(x) * Pow2(b + 64 * ws))
  {
    ShiftedNumber(x, ws, b);
    SumBelow(Shifted(x, ws, b));
    if ws < 4 {
      ShiftedIn(x, ws, b, Number(Shifted(x, ws, b)));
      TwoShifts(Number(x), b, 64 * ws);
    } else {
      ShiftedOut(Number(x), b + 64 * ws, 4);
    }
  }

  /** `<<` multiplies by the power of two and keeps the low 256 bits, for every shift. */
  lemma ShlMultiplies(x: seq<nat>, shift: nat)
    requires IsU256(x)
    ensures var r := Shifted(x, shift / 64, shift % 64); IsU256(r) && Number(r) == Low256(Number(x) * Pow2(shift))
  {
    ShlBy(x, shift / 64, shift % 64);
  }

  // ---------- compact targets ----------

  function Quotient(n: nat, d: nat): nat
    requires d > 0
  {
    n / d
  }

  /** The mantissa of a compact target: three bytes, shifted down when the size is below three. */
  function Mantissa(bits: nat): nat {
    var size, word := bits / 0x100_0000, bits % 0x100_0000;
    if size <= 3 then Quotient(word, Pow2(8 * (3 - size))) else word
  }

  /** The number a compact target stands for: mantissa times 256 to the size less three, nothing when negative. */
  function CompactValue(bits: nat): nat {
    var size, mant := bits / 0x100_0000, Mantissa(bits);
    if mant > 0x7FFFFF then 0
    else if size <= 3 then mant
    else Low256(mant * Pow2(8 * (size - 3)))
  }

  lemma OneWord(m: nat)
    requires m < W
    ensures IsU256([m, 0, 0, 0]) && Number([m, 0, 0, 0]) == m
  {
    NumberIs([m, 0, 0, 0]);
  }

  lemma NoShift(m: nat)
    requires m < W
    ensures Low256(m * Pow2(0)) == m
  {
    Low256Is(m, 0, m);
  }

  /** `u256_from_compact_target`. */
  method FromCompact(bits: nat) returns (r: seq<nat>)
    requires bits < 0x1_0000_0000
    ensures IsU256(r) && Number(r) == CompactValue(bits)
  {
    var size := bits / 0x100_0000;
    var mant: nat := bits % 0x100_0000;
    var expt: nat := 0;
    if size <= 3 {
      ShiftRightIsDiv(mant, 8 * (3 - size));
      mant := ShiftRight(mant, 8 * (3 - size));
    } else {
      expt := 8 * (size - 3);
    }
    assert mant == Mantissa(bits);
    OneWord(0);
    if mant > 0x7FFFFF {
      return [0, 0, 0, 0];
    }
    OneWord(mant);
    NoShift(mant);
    ShlMultiplies([mant, 0, 0, 0], expt);
    r := Shl([mant, 0, 0, 0], expt);
  }
}
