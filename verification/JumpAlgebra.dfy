/** Polynomials in a linear map over a space where adding twice cancels, and the jump that composes several of them. */
module JumpAlgebra {

  datatype Space<!V> = Space(zero: V, add: (V, V) -> V, step: V -> V)

  /** Addition at three vectors: commutative, associative, with a unit, and its own inverse. */
  ghost predicate AddsAt<V>(g: Space<V>, x: V, y: V, z: V) {
    && g.add(x, y) == g.add(y, x)
    && g.add(g.add(x, y), z) == g.add(x, g.add(y, z))
    && g.add(x, g.zero) == x
    && g.add(x, x) == g.zero
  }

  ghost predicate StepsAt<V>(g: Space<V>, x: V, y: V) {
    g.step(g.add(x, y)) == g.add(g.step(x), g.step(y))
  }

  /** Addition cancels, and the step is additive. */
  ghost predicate Linear<V(!new)>(g: Space<V>) {
    (forall x, y, z :: AddsAt(g, x, y, z)) && forall x, y :: StepsAt(g, x, y)
  }

  function Steps<V>(g: Space<V>, n: nat, v: V): V {
    if n == 0 then v else Steps(g, n - 1, g.step(v))
  }

  lemma {:induction false} StepsGrow<V>(g: Space<V>, n: nat, v: V)
    ensures Steps(g, 0, v) == v && Steps(g, n + 1, v) == g.step(Steps(g, n, v))
  {
    if n > 0 {
      StepsGrow(g, n - 1, g.step(v));
    }
  }

  /** The polynomial with these coefficients, constant term first, in the step, applied to a vector. */
  function Poly<V>(g: Space<V>, bits: seq<bool>, v: V): V {
    if bits == [] then g.zero
    else g.add(if bits[0] then v else g.zero, Poly(g, bits[1..], g.step(v)))
  }

  /** `v + p(v)`. */
  function OnePlus<V>(g: Space<V>, bits: seq<bool>, v: V): V {
    g.add(v, Poly(g, bits, v))
  }

  /** The first polynomial, then one plus each of the others. */
  function Jump<V>(g: Space<V>, words: seq<seq<bool>>, v: V): V
    requires words != []
  {
    if |words| == 1 then Poly(g, words[0], v)
    else OnePlus(g, words[|words| - 1], Jump(g, words[..|words| - 1], v))
  }

  lemma Exchange<V(!new)>(g: Space<V>, a: V, b: V, c: V, d: V)
    requires Linear(g)
    ensures g.add(g.add(a, b), g.add(c, d)) == g.add(g.add(a, c), g.add(b, d))
  {
    assert AddsAt(g, a, b, g.add(c, d)) && AddsAt(g, b, c, d);
    assert AddsAt(g, c, b, d) && AddsAt(g, a, c, g.add(b, d));
  }

  lemma Unit<V(!new)>(g: Space<V>, v: V)
    requires Linear(g)
    ensures g.add(v, g.zero) == v && g.add(g.zero, v) == v && g.add(v, v) == g.zero
  {
    assert AddsAt(g, v, g.zero, v);
  }

  lemma StepZero<V(!new)>(g: Space<V>)
    requires Linear(g)
    ensures g.step(g.zero) == g.zero
  {
    Unit(g, g.zero);
    Unit(g, g.step(g.zero));
    assert StepsAt(g, g.zero, g.zero);
  }

  lemma {:induction false} PolyAdds<V(!new)>(g: Space<V>, bits: seq<bool>, x: V, y: V)
    requires Linear(g)
    ensures Poly(g, bits, g.add(x, y)) == g.add(Poly(g, bits, x), Poly(g, bits, y))
  {
    if bits != [] {
      PolyAdds(g, bits[1..], g.step(x), g.step(y));
      var a, b := if bits[0] then x else g.zero, if bits[0] then y else g.zero;
      assert StepsAt(g, x, y);
      Unit(g, g.zero);
      Exchange(g, a, b, Poly(g, bits[1..], g.step(x)), Poly(g, bits[1..], g.step(y)));
    } else {
      Unit(g, g.zero);
    }
  }

  lemma {:induction false} PolyZero<V(!new)>(g: Space<V>, bits: seq<bool>)
    requires Linear(g)
    ensures Poly(g, bits, g.zero) == g.zero
  {
    StepZero(g);
    Unit(g, g.zero);
    if bits != [] {
      PolyZero(g, bits[1..]);
    }
  }

  lemma {:induction false} PolyCommutes<V(!new)>(g: Space<V>, bits: seq<bool>, v: V)
    requires Linear(g)
    ensures Poly(g, bits, g.step(v)) == g.step(Poly(g, bits, v))
  {
    StepZero(g);
    if bits != [] {
      PolyCommutes(g, bits[1..], g.step(v));
      assert StepsAt(g, if bits[0] then v else g.zero, Poly(g, bits[1..], g.step(v)));
    }
  }

  /** Polynomials in the same map commute, so the order of the words does not matter. */
  lemma {:induction false} PolysCommute<V(!new)>(g: Space<V>, p: seq<bool>, q: seq<bool>, v: V)
    requires Linear(g)
    ensures Poly(g, p, Poly(g, q, v)) == Poly(g, q, Poly(g, p, v))
  {
    PolyZero(g, q);
    if p != [] {
      var a := if p[0] then v else g.zero;
      var rest := Poly(g, p[1..], g.step(v));
      PolyCommutes(g, q, v);
      PolysCommute(g, p[1..], q, g.step(v));
      PolyAdds(g, q, a, rest);
      assert Poly(g, q, a) == if p[0] then Poly(g, q, v) else g.zero;
    }
  }

  lemma {:induction false} JumpAdds<V(!new)>(g: Space<V>, words: seq<seq<bool>>, x: V, y: V)
    requires Linear(g) && words != []
    ensures Jump(g, words, g.add(x, y)) == g.add(Jump(g, words, x), Jump(g, words, y))
  {
    if |words| == 1 {
      PolyAdds(g, words[0], x, y);
    } else {
      var front, last := words[..|words| - 1], words[|words| - 1];
      var jx, jy := Jump(g, front, x), Jump(g, front, y);
      JumpAdds(g, front, x, y);
      PolyAdds(g, last, jx, jy);
      Exchange(g, jx, jy, Poly(g, last, jx), Poly(g, last, jy));
    }
  }

  lemma {:induction false} JumpCommutes<V(!new)>(g: Space<V>, words: seq<seq<bool>>, v: V)
    requires Linear(g) && words != []
    ensures Jump(g, words, g.step(v)) == g.step(Jump(g, words, v))
  {
    if |words| == 1 {
      PolyCommutes(g, words[0], v);
    } else {
      var front, last := words[..|words| - 1], words[|words| - 1];
      var j := Jump(g, front, v);
      JumpCommutes(g, front, v);
      PolyCommutes(g, last, j);
      assert StepsAt(g, j, Poly(g, last, j));
    }
  }

  lemma {:induction false} JumpCommutesSteps<V(!new)>(g: Space<V>, words: seq<seq<bool>>, n: nat, v: V)
    requires Linear(g) && words != []
    ensures Jump(g, words, Steps(g, n, v)) == Steps(g, n, Jump(g, words, v))
    decreases n
  {
    if n > 0 {
      JumpCommutes(g, words, v);
      JumpCommutesSteps(g, words, n - 1, g.step(v));
    }
  }

  /** Multiplying coefficient lists. */
  function AddBits(p: seq<bool>, q: seq<bool>): seq<bool> {
    if p == [] then q else if q == [] then p else [p[0] != q[0]] + AddBits(p[1..], q[1..])
  }

  function MulBits(p: seq<bool>, q: seq<bool>): seq<bool> {
    if p == [] then [] else AddBits(if p[0] then q else [], [false] + MulBits(p[1..], q))
  }

  /** The coefficients of the whole jump. */
  function JumpBits(words: seq<seq<bool>>): seq<bool>
    requires words != []
  {
    if |words| == 1 then words[0]
    else MulBits(AddBits([true], words[|words| - 1]), JumpBits(words[..|words| - 1]))
  }

  lemma {:induction false} AddBitsPoly<V(!new)>(g: Space<V>, p: seq<bool>, q: seq<bool>, v: V)
    requires Linear(g)
    ensures Poly(g, AddBits(p, q), v) == g.add(Poly(g, p, v), Poly(g, q, v))
  {
    Unit(g, Poly(g, p, v));
    Unit(g, Poly(g, q, v));
    if p != [] && q != [] {
      var a, b := if p[0] then v else g.zero, if q[0] then v else g.zero;
      assert AddBits(p, q)[1..] == AddBits(p[1..], q[1..]);
      AddBitsPoly(g, p[1..], q[1..], g.step(v));
      Unit(g, v);
      Unit(g, g.zero);
      Exchange(g, a, b, Poly(g, p[1..], g.step(v)), Poly(g, q[1..], g.step(v)));
    }
  }

  lemma {:induction false} MulBitsPoly<V(!new)>(g: Space<V>, p: seq<bool>, q: seq<bool>, v: V)
    requires Linear(g)
    ensures Poly(g, MulBits(p, q), v) == Poly(g, p, Poly(g, q, v))
  {
    if p != [] {
      var rest := MulBits(p[1..], q);
      var shifted := [false] + rest;
      assert shifted[1..] == rest;
      MulBitsPoly(g, p[1..], q, g.step(v));
      AddBitsPoly(g, if p[0] then q else [], shifted, v);
      Unit(g, Poly(g, rest, g.step(v)));
      PolyCommutes(g, q, v);
    }
  }

  lemma OnePlusPoly<V(!new)>(g: Space<V>, bits: seq<bool>, v: V)
    requires Linear(g)
    ensures OnePlus(g, bits, v) == Poly(g, AddBits([true], bits), v)
  {
    AddBitsPoly(g, [true], bits, v);
    assert [true][1..] == [];
    Unit(g, v);
  }

  /** The whole jump is one polynomial in the step: the product of the words' factors. */
  lemma {:induction false} JumpIsPoly<V(!new)>(g: Space<V>, words: seq<seq<bool>>, v: V)
    requires Linear(g) && words != []
    ensures Jump(g, words, v) == Poly(g, JumpBits(words), v)
  {
    if |words| > 1 {
      var front, last := words[..|words| - 1], words[|words| - 1];
      JumpIsPoly(g, front, v);
      OnePlusPoly(g, last, Poly(g, JumpBits(front), v));
      MulBitsPoly(g, AddBits([true], last), JumpBits(front), v);
    }
  }
}
