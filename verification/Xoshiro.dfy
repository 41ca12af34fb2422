/**
 The xoshiro256** generator of `src/xoshiro256starstar.rs` and the jump that spaces its parallel streams. The algebra
 is done over any words with the few laws it needs; 64-bit machine words, as their bits, are shown to have them.
 */
module Xoshiro {
  import opened JumpAlgebra

  // ---------- the transition over abstract words ----------

  /** Exclusive or, the shift by 17 and the rotations by 45 and back. */
  datatype WordOps<!W> = WordOps(zero: W, xor: (W, W) -> W, shift: W -> W, rotate: W -> W, unrotate: W -> W)

  ghost predicate XorAt<W>(o: WordOps<W>, x: W, y: W, z: W) {
    && o.xor(x, y) == o.xor(y, x)
    && o.xor(o.xor(x, y), z) == o.xor(x, o.xor(y, z))
    && o.xor(x, o.zero) == x
    && o.xor(x, x) == o.zero
  }

  ghost predicate MapsAt<W>(o: WordOps<W>, x: W, y: W) {
    && o.shift(o.xor(x, y)) == o.xor(o.shift(x), o.shift(y))
    && o.rotate(o.xor(x, y)) == o.xor(o.rotate(x), o.rotate(y))
    && o.shift(o.shift(o.shift(o.shift(x)))) == o.zero
    && o.unrotate(o.rotate(x)) == x && o.rotate(o.unrotate(x)) == x
  }

  ghost predicate WordLaws<W(!new)>(o: WordOps<W>) {
    (forall x, y, z :: XorAt(o, x, y, z)) && forall x, y :: MapsAt(o, x, y)
  }

  datatype Words<W> = Words(w0: W, w1: W, w2: W, w3: W)

  function Xor<W>(o: WordOps<W>, s: Words<W>, t: Words<W>): Words<W> {
    Words(o.xor(s.w0, t.w0), o.xor(s.w1, t.w1), o.xor(s.w2, t.w2), o.xor(s.w3, t.w3))
  }

  /** The state transition, in the order the assignments are made. */
  function Next<W>(o: WordOps<W>, s: Words<W>): Words<W> {
    var x2 := o.xor(s.w2, s.w0);
    var x3 := o.xor(s.w3, s.w1);
    var x1 := o.xor(s.w1, x2);
    var x0 := o.xor(s.w0, x3);
    Words(x0, x1, o.xor(x2, o.shift(s.w1)), o.rotate(x3))
  }

  /** Undo `x ^ (x << 17)`. */
  function Unshift<W>(o: WordOps<W>, u: W): W {
    var u1 := o.shift(u);
    var u2 := o.shift(u1);
    o.xor(o.xor(u, u1), o.xor(u2, o.shift(u2)))
  }

  function Previous<W>(o: WordOps<W>, s: Words<W>): Words<W> {
    var x3 := o.unrotate(s.w3);
    var w0 := o.xor(s.w0, x3);
    var w1 := Unshift(o, o.xor(s.w1, s.w2));
    Words(w0, w1, o.xor(o.xor(s.w1, w1), w0), o.xor(x3, w1))
  }

  lemma Swap<W(!new)>(o: WordOps<W>, a: W, b: W, c: W, d: W)
    requires WordLaws(o)
    ensures o.xor(o.xor(a, b), o.xor(c, d)) == o.xor(o.xor(a, c), o.xor(b, d))
  {
    assert XorAt(o, a, b, o.xor(c, d)) && XorAt(o, b, c, d);
    assert XorAt(o, c, b, d) && XorAt(o, a, c, o.xor(b, d));
  }

  lemma Cancel<W(!new)>(o: WordOps<W>, a: W, b: W)
    requires WordLaws(o)
    ensures o.xor(o.xor(a, b), b) == a && o.xor(o.xor(b, a), b) == a && o.xor(b, o.xor(a, b)) == a
    ensures o.xor(b, o.xor(b, a)) == a
  {
    assert XorAt(o, a, b, b) && XorAt(o, b, b, b) && XorAt(o, b, o.xor(a, b), b) && XorAt(o, b, a, b);
  }

  /** `(a + b) + (b + c)` is `a + c`. */
  lemma Telescope<W(!new)>(o: WordOps<W>, a: W, b: W, c: W)
    requires WordLaws(o)
    ensures o.xor(o.xor(a, b), o.xor(b, c)) == o.xor(a, c)
  {
    Cancel(o, c, b);
    assert XorAt(o, a, b, o.xor(b, c));
  }

  /** The transition is additive. */
  lemma NextAdds<W(!new)>(o: WordOps<W>, s: Words<W>, t: Words<W>)
    requires WordLaws(o)
    ensures Next(o, Xor(o, s, t)) == Xor(o, Next(o, s), Next(o, t))
  {
    Swap(o, s.w2, t.w2, s.w0, t.w0);
    Swap(o, s.w3, t.w3, s.w1, t.w1);
    var a2, b2 := o.xor(s.w2, s.w0), o.xor(t.w2, t.w0);
    var a3, b3 := o.xor(s.w3, s.w1), o.xor(t.w3, t.w1);
    Swap(o, s.w1, t.w1, a2, b2);
    Swap(o, s.w0, t.w0, a3, b3);
    Swap(o, a2, b2, o.shift(s.w1), o.shift(t.w1));
    assert MapsAt(o, s.w1, t.w1) && MapsAt(o, a3, b3);
  }

  /** The sum of the shifts telescopes, because four shifts leave nothing. */
  lemma UnshiftUndoes<W(!new)>(o: WordOps<W>, x: W)
    requires WordLaws(o)
    ensures Unshift(o, o.xor(x, o.shift(x))) == x
    ensures o.xor(Unshift(o, x), o.shift(Unshift(o, x))) == x
  {
    var x1 := o.shift(x);
    var x2 := o.shift(x1);
    var x3 := o.shift(x2);
    assert MapsAt(o, x, x1) && MapsAt(o, x1, x2) && MapsAt(o, x2, x3);
    Telescope(o, x, x1, x2);
    Telescope(o, x2, x3, o.zero);
    Telescope(o, x, x2, o.zero);
    assert XorAt(o, x2, o.zero, x) && XorAt(o, x, o.zero, x);
    assert MapsAt(o, o.xor(x, x1), o.xor(x2, x3));
    Swap(o, o.xor(x, x1), o.xor(x2, x3), o.xor(x1, x2), o.xor(x3, o.zero));
  }

  lemma PreviousAfterNext<W(!new)>(o: WordOps<W>, s: Words<W>)
    requires WordLaws(o)
    ensures Previous(o, Next(o, s)) == s
  {
    var x2 := o.xor(s.w2, s.w0);
    var x3 := o.xor(s.w3, s.w1);
    assert MapsAt(o, x3, x3);
    Cancel(o, s.w0, x3);
    Telescope(o, s.w1, x2, o.shift(s.w1));
    UnshiftUndoes(o, s.w1);
    Cancel(o, x2, s.w1);
    Cancel(o, s.w2, s.w0);
    Cancel(o, s.w3, s.w1);
  }

  lemma NextAfterPrevious<W(!new)>(o: WordOps<W>, s: Words<W>)
    requires WordLaws(o)
    ensures Next(o, Previous(o, s)) == s
  {
    var x3 := o.unrotate(s.w3);
    var w0 := o.xor(s.w0, x3);
    var u := o.xor(s.w1, s.w2);
    var w1 := Unshift(o, u);
    assert MapsAt(o, s.w3, x3);
    Cancel(o, o.xor(s.w1, w1), w0);
    Cancel(o, x3, w1);
    Cancel(o, s.w1, w1);
    Cancel(o, s.w0, x3);
    UnshiftUndoes(o, u);
    Cancel(o, s.w2, s.w1);
    assert XorAt(o, s.w1, w1, o.shift(w1));
  }

  /** The states as a space in which the transition is the step. */
  function States<W>(o: WordOps<W>): Space<Words<W>> {
    Space(Words(o.zero, o.zero, o.zero, o.zero), (s, t) => Xor(o, s, t), s => Next(o, s))
  }

  lemma XorWords<W(!new)>(o: WordOps<W>, s: Words<W>, t: Words<W>, u: Words<W>)
    requires WordLaws(o)
    ensures Xor(o, s, t) == Xor(o, t, s) && Xor(o, Xor(o, s, t), u) == Xor(o, s, Xor(o, t, u))
    ensures var zero := States(o).zero; Xor(o, s, zero) == s && Xor(o, s, s) == zero
  {
    assert XorAt(o, s.w0, t.w0, u.w0) && XorAt(o, s.w1, t.w1, u.w1);
    assert XorAt(o, s.w2, t.w2, u.w2) && XorAt(o, s.w3, t.w3, u.w3);
  }

  lemma StatesAreLinear<W(!new)>(o: WordOps<W>)
    requires WordLaws(o)
    ensures Linear(States(o))
  {
    var g := States(o);
    forall s, t, u
      ensures AddsAt(g, s, t, u)
    {
      XorWords(o, s, t, u);
    }
    forall s, t
      ensures StepsAt(g, s, t)
    {
      NextAdds(o, s, t);
    }
  }

  // ---------- machine words ----------

  /** A `u64` as its bits, least significant first. */
  type Word = s: seq<bool> | |s| == 64 witness seq(64, _ => false)

  function Xor64(x: Word, y: Word): Word {
    seq(64, i requires 0 <= i < 64 => x[i] != y[i])
  }

  /** `x << k`. */
  function ShiftLeft(x: Word, k: nat): Word {
    seq(64, i requires 0 <= i < 64 => i >= k && x[i - k])
  }

  /** `(x << k) | (x >> (64 - k))`. */
  function Rotl(x: Word, k: nat): Word
    requires k <= 64
  {
    seq(64, i requires 0 <= i < 64 => (i >= k && x[i - k]) || (i + (64 - k) < 64 && x[i + (64 - k)]))
  }

  function Shift17(x: Word): Word {
    ShiftLeft(x, 17)
  }

  function Rotl45(x: Word): Word {
    Rotl(x, 45)
  }

  function Rotl19(x: Word): Word {
    Rotl(x, 19)
  }

  function Machine(): WordOps<Word> {
    WordOps<Word>.WordOps(seq(64, _ => false), Xor64, Shift17, Rotl45, Rotl19)
  }

  lemma MachineLaws()
    ensures WordLaws(Machine())
  {
    forall x: Word, y: Word, z: Word
      ensures XorAt(Machine(), x, y, z)
    {
      MachineXor(x, y, z);
    }
    forall x: Word, y: Word
      ensures MapsAt(Machine(), x, y)
    {
      MachineShift(x, y);
      MachineRotate(x, y);
    }
  }

  lemma MachineXor(x: Word, y: Word, z: Word)
    ensures XorAt(Machine(), x, y, z)
  {
    assert Xor64(x, y) == Xor64(y, x);
    assert Xor64(Xor64(x, y), z) == Xor64(x, Xor64(y, z));
    assert Xor64(x, seq(64, _ => false)) == x && Xor64(x, x) == seq(64, _ => false);
  }

  lemma MachineShift(x: Word, y: Word)
    ensures ShiftLeft(Xor64(x, y), 17) == Xor64(ShiftLeft(x, 17), ShiftLeft(y, 17))
    ensures ShiftLeft(ShiftLeft(ShiftLeft(ShiftLeft(x, 17), 17), 17), 17) == Machine().zero
  {
  }

  lemma MachineRotate(x: Word, y: Word)
    ensures Rotl(Xor64(x, y), 45) == Xor64(Rotl(x, 45), Rotl(y, 45))
    ensures Rotl(Rotl(x, 45), 19) == x && Rotl(Rotl(x, 19), 45) == x
  {
  }

  /** The low `k` bits of a number. */
  function Bits(n: nat, k: nat): (bits: seq<bool>)
    ensures |bits| == k
  {
    if k == 0 then [] else [n % 2 == 1] + Bits(n / 2, k - 1)
  }

  function Number(bits: seq<bool>): nat {
    if bits == [] then 0 else (if bits[0] then 1 else 0) + 2 * Number(bits[1..])
  }

  /** `rotl(w * 5, 7) * 9`, both products wrapping. */
  function Output(w: Word): Word {
    Bits(Number(Rotl(Bits(Number(w) * 5, 64), 7)) * 9, 64)
  }

  // ---------- words as numbers ----------

  function Power(k: nat): (p: nat)
    ensures p > 0
  {
    if k == 0 then 1 else 2 * Power(k - 1)
  }

  lemma {:induction false} BitsBelow(bits: seq<bool>)
    ensures Number(bits) < Power(|bits|)
  {
    if bits != [] {
      BitsBelow(bits[1..]);
    }
  }

  lemma {:induction false} NumberOfJoin(a: seq<bool>, b: seq<bool>)
    ensures Number(a + b) == Number(a) + Power(|a|) * Number(b)
  {
    if a == [] {
      assert a + b == b;
    } else {
      assert (a + b)[0] == a[0] && (a + b)[1..] == a[1..] + b;
      NumberOfJoin(a[1..], b);
      JoinStep(if a[0] then 1 else 0, Number(a[1..]), Power(|a| - 1), Number(b));
    }
  }

  lemma JoinStep(d: nat, v: nat, p: nat, w: nat)
    ensures d + 2 * (v + p * w) == (d + 2 * v) + (2 * p) * w
  {
  }

  /** The bits of a number are the number modulo the power. */
  lemma {:induction false} NumberOfBits(n: nat, k: nat) returns (q: nat)
    ensures n == q * Power(k) + Number(Bits(n, k)) && Number(Bits(n, k)) < Power(k)
    decreases k
  {
    BitsBelow(Bits(n, k));
    if k == 0 {
      q := n;
    } else {
      assert Bits(n, k)[1..] == Bits(n / 2, k - 1);
      q := NumberOfBits(n / 2, k - 1);
      assert 2 * (q * Power(k - 1)) == q * Power(k);
    }
  }

  lemma {:induction false} NumberOfZeros(k: nat)
    ensures Number(seq(k, _ => false)) == 0
  {
    if k > 0 {
      NumberOfZeros(k - 1);
      assert seq(k, _ => false)[1..] == seq(k - 1, _ => false);
    }
  }

  /** Shifting left by `k` keeps the low part, as many times larger; rotating also brings the high part to the bottom. */
  lemma ShiftsInNumbers(x: Word, k: nat)
    requires k <= 64
    ensures var (low, high) := (Number(x[..64 - k]), Number(x[64 - k..]));
            && Number(x) == low + Power(64 - k) * high && low < Power(64 - k) && high < Power(k)
            && Number(ShiftLeft(x, k)) == Power(k) * low && Number(Rotl(x, k)) == high + Power(k) * low
  {
    var (low, high) := (x[..64 - k], x[64 - k..]);
    assert x == low + high;
    NumberOfJoin(low, high);
    BitsBelow(low);
    BitsBelow(high);
    assert ShiftLeft(x, k) == seq(k, _ => false) + low;
    NumberOfZeros(k);
    NumberOfJoin(seq(k, _ => false), low);
    assert Rotl(x, k) == high + low;
    NumberOfJoin(high, low);
  }

  /** The transition shifts by 17 places and rotates by 45; both are told in numbers by `ShiftsInNumbers`. */
  lemma MachineShifts(x: Word)
    ensures Machine().shift(x) == ShiftLeft(x, 17) && Machine().rotate(x) == Rotl(x, 45)
  {
  }

  lemma Powers()
    ensures Power(7) == 128 && Power(57) == 0x200_0000_0000_0000 && Power(64) == 0x1_0000_0000_0000_0000
  {
    assert Power(7) == 128;
    assert Power(17) == 1024 * Power(7);
    assert Power(27) == 1024 * Power(17);
    assert Power(37) == 1024 * Power(27);
    assert Power(47) == 1024 * Power(37);
    assert Power(57) == 1024 * Power(47);
    assert Power(64) == 128 * Power(57);
  }

  /** The number drawn: five times the word, rotated by seven places, times nine, each modulo 2^64. */
  lemma OutputInNumbers(w: Word) returns (low: nat, high: nat, p: nat, q: nat)
    ensures 5 * Number(w) == p * 0x1_0000_0000_0000_0000 + low + 0x200_0000_0000_0000 * high
    ensures low < 0x200_0000_0000_0000 && high < 128
    ensures 9 * (high + 128 * low) == q * 0x1_0000_0000_0000_0000 + Number(Output(w))
    ensures Number(Output(w)) < 0x1_0000_0000_0000_0000
  {
    Powers();
    var m := Bits(Number(w) * 5, 64);
    p := NumberOfBits(Number(w) * 5, 64);
    ShiftsInNumbers(m, 7);
    low, high := Number(m[..57]), Number(m[57..]);
    q := NumberOfBits(Number(Rotl(m, 7)) * 9, 64);
  }

  const LONG_JUMP: seq<nat> := [0x76e15d3efefdcbbf, 0xc5004e441c522fb3, 0x77710069854ee241, 0x39109bb02acbe635]

  /** The four words of the jump, as coefficients. */
  function LongJumpWords(): (words: seq<Word>)
    ensures |words| == 4
  {
    seq(4, i requires 0 <= i < 4 => Bits(LONG_JUMP[i], 64))
  }

  // ---------- the generator ----------

  class Generator {
    const state: array<Word>

    ghost predicate Valid() {
      state.Length == 4
    }

    function View(): Words<Word>
      requires Valid()
      reads state
    {
      Words(state[0], state[1], state[2], state[3])
    }

    constructor (seed: Words<Word>)
      ensures Valid() && fresh(state) && View() == seed
    {
      state := new Word[4];
      new;
      Store(seed);
    }

    method Store(s: Words<Word>)
      requires Valid()
      modifies state
      ensures View() == s
    {
      state[0] := s.w0;
      state[1] := s.w1;
      state[2] := s.w2;
      state[3] := s.w3;
    }

    method NextU64() returns (result: Word)
      requires Valid()
      modifies state
      ensures result == Output(old(state[1])) && View() == Next(Machine(), old(View()))
    {
      result := Output(state[1]);
      var t := Shift17(state[1]);
      state[2] := Xor64(state[2], state[0]);
      state[3] := Xor64(state[3], state[1]);
      state[1] := Xor64(state[1], state[2]);
      state[0] := Xor64(state[0], state[3]);
      state[2] := Xor64(state[2], t);
      state[3] := Rotl45(state[3]);
    }

    /** The inner loop: add the states at the set bits, stepping 64 times. */
    method Accumulate(jmp: Word, start: Words<Word>) returns (acc: Words<Word>)
      requires Valid()
      modifies state
      ensures acc == Xor(Machine(), start, Poly(States(Machine()), jmp, old(View())))
    {
      ghost var total := Xor(Machine(), start, Poly(States(Machine()), jmp, View()));
      acc := start;
      for b := 0 to 64
        invariant Xor(Machine(), acc, Poly(States(Machine()), jmp[b..], View())) == total
      {
        PolyStep(jmp, b, acc, View());
        if jmp[b] {
          acc := Xor(Machine(), acc, View());
        }
        var _ := NextU64();
      }
      assert jmp[64..] == [];
      MachineLaws();
      XorWords(Machine(), acc, acc, acc);
    }

    /** The outer loop, which overwrites the state with the running sum after every word. */
    method JumpBy(words: seq<Word>)
      requires Valid() && words != []
      modifies state
      ensures View() == Jump(States(Machine()), words, old(View()))
    {
      var acc := States(Machine()).zero;
      for w := 0 to |words|
        invariant w == 0 ==> acc == States(Machine()).zero && View() == old(View())
        invariant w > 0 ==> acc == View() == Jump(States(Machine()), words[..w], old(View()))
      {
        JumpStep(words, w, old(View()));
        acc := Accumulate(words[w], acc);
        Store(acc);
      }
      assert words[..|words|] == words;
    }

    method LongJump()
      requires Valid()
      modifies state
      ensures View() == LongJumped(old(View()))
    {
      JumpBy(LongJumpWords());
    }
  }

  /** Moving one term of the sum into the accumulator. */
  lemma PolyStep(jmp: Word, b: nat, acc: Words<Word>, v: Words<Word>)
    requires b < 64
    ensures var o, g := Machine(), States(Machine());
            Xor(o, acc, Poly(g, jmp[b..], v)) == Xor(o, if jmp[b] then Xor(o, acc, v) else acc, Poly(g, jmp[b + 1..], Next(o, v)))
  {
    var o, g := Machine(), States(Machine());
    assert jmp[b..][1..] == jmp[b + 1..];
    MachineLaws();
    var rest := Poly(g, jmp[b + 1..], Next(o, v));
    XorWords(o, acc, v, rest);
    XorWords(o, rest, g.zero, g.zero);
  }

  lemma JumpStep(words: seq<Word>, w: nat, v: Words<Word>)
    requires w < |words|
    ensures var g := States(Machine());
            if w == 0 then Xor(Machine(), g.zero, Poly(g, words[0], v)) == Jump(g, words[..1], v)
            else var j := Jump(g, words[..w], v); Xor(Machine(), j, Poly(g, words[w], j)) == Jump(g, words[..w + 1], v)
  {
    var g := States(Machine());
    assert words[..w + 1][..w] == words[..w];
    MachineLaws();
    XorWords(Machine(), Poly(g, words[w], v), g.zero, g.zero);
  }

  // ---------- what the jump is ----------

  function LongJumped(s: Words<Word>): Words<Word> {
    Jump(States(Machine()), LongJumpWords(), s)
  }

  /** The jump is linear over exclusive or, and one polynomial in the transition. */
  lemma LongJumpIsLinear(s: Words<Word>, t: Words<Word>)
    ensures LongJumped(Xor(Machine(), s, t)) == Xor(Machine(), LongJumped(s), LongJumped(t))
    ensures LongJumped(s) == Poly(States(Machine()), JumpBits(LongJumpWords()), s)
  {
    MachineLaws();
    StatesAreLinear(Machine());
    JumpAdds(States(Machine()), LongJumpWords(), s, t);
    JumpIsPoly(States(Machine()), LongJumpWords(), s);
  }

  /** Jumping and drawing any number of values commute. */
  lemma LongJumpCommutes(s: Words<Word>, n: nat)
    ensures LongJumped(Steps(States(Machine()), n, s)) == Steps(States(Machine()), n, LongJumped(s))
  {
    MachineLaws();
    StatesAreLinear(Machine());
    JumpCommutesSteps(States(Machine()), LongJumpWords(), n, s);
  }

  /** The transition loses nothing: every state has exactly one predecessor. */
  lemma NextIsBijective(s: Words<Word>)
    ensures Previous(Machine(), Next(Machine(), s)) == s && Next(Machine(), Previous(Machine(), s)) == s
  {
    MachineLaws();
    PreviousAfterNext(Machine(), s);
    NextAfterPrevious(Machine(), s);
  }
}
