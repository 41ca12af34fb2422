/** Sums and mixing chains over any words: what their results say about the words that went in. */
module MixChains {
  ghost predicate CancelsAt<W>(op: (W, W) -> W, x: W, y: W, z: W) {
    (op(x, z) == op(y, z) ==> x == y) && (op(z, x) == op(z, y) ==> x == y)
  }

  ghost predicate Cancels<W(!new)>(op: (W, W) -> W) {
    forall x, y, z :: CancelsAt(op, x, y, z)
  }

  ghost predicate OneToOne<W(!new)>(f: W -> W) {
    forall x, y :: f(x) == f(y) ==> x == y
  }

  function Sum<W>(op: (W, W) -> W, s: W, ws: seq<W>): W {
    if ws == [] then s else op(Sum(op, s, ws[..|ws| - 1]), ws[|ws| - 1])
  }

  lemma {:induction false} SumSees<W(!new)>(op: (W, W) -> W, s: W, ws: seq<W>, i: nat, x: W)
    requires Cancels(op) && i < |ws| && Sum(op, s, ws) == Sum(op, s, ws[i := x])
    ensures ws[i] == x
  {
    var n := |ws| - 1;
    var vs := ws[i := x];
    if i == n {
      assert vs[..n] == ws[..n];
      assert CancelsAt(op, ws[n], x, Sum(op, s, ws[..n]));
    } else {
      assert vs[..n] == ws[..n][i := x];
      assert CancelsAt(op, Sum(op, s, ws[..n]), Sum(op, s, vs[..n]), ws[n]);
      SumSees(op, s, ws[..n], i, x);
    }
  }

  lemma {:induction false} SumSeesStart<W(!new)>(op: (W, W) -> W, s: W, t: W, ws: seq<W>)
    requires Cancels(op) && Sum(op, s, ws) == Sum(op, t, ws)
    ensures s == t
  {
    if ws != [] {
      var n := |ws| - 1;
      assert CancelsAt(op, Sum(op, s, ws[..n]), Sum(op, t, ws[..n]), ws[n]);
      SumSeesStart(op, s, t, ws[..n]);
    }
  }

  /** Each round combines one more word and mixes. */
  function Chain<W>(op: (W, W) -> W, mix: W -> W, s: W, ws: seq<W>): W {
    if ws == [] then s else mix(op(Chain(op, mix, s, ws[..|ws| - 1]), ws[|ws| - 1]))
  }

  lemma {:induction false} ChainSees<W(!new)>(op: (W, W) -> W, mix: W -> W, s: W, ws: seq<W>, i: nat, x: W)
    requires Cancels(op) && OneToOne(mix) && i < |ws| && Chain(op, mix, s, ws) == Chain(op, mix, s, ws[i := x])
    ensures ws[i] == x
  {
    var n := |ws| - 1;
    var vs := ws[i := x];
    if i == n {
      assert vs[..n] == ws[..n];
      assert CancelsAt(op, ws[n], x, Chain(op, mix, s, ws[..n]));
    } else {
      assert vs[..n] == ws[..n][i := x];
      assert CancelsAt(op, Chain(op, mix, s, ws[..n]), Chain(op, mix, s, vs[..n]), ws[n]);
      ChainSees(op, mix, s, ws[..n], i, x);
    }
  }

  lemma {:induction false} ChainSeesStart<W(!new)>(op: (W, W) -> W, mix: W -> W, s: W, t: W, ws: seq<W>)
    requires Cancels(op) && OneToOne(mix) && Chain(op, mix, s, ws) == Chain(op, mix, t, ws)
    ensures s == t
  {
    if ws != [] {
      var n := |ws| - 1;
      assert CancelsAt(op, Chain(op, mix, s, ws[..n]), Chain(op, mix, t, ws[..n]), ws[n]);
      ChainSeesStart(op, mix, s, t, ws[..n]);
    }
  }

  lemma ChainRound<W>(op: (W, W) -> W, mix: W -> W, s: W, ws: seq<W>, i: nat)
    requires i < |ws|
    ensures Chain(op, mix, s, ws[..i + 1]) == mix(op(Chain(op, mix, s, ws[..i]), ws[i]))
  {
    assert ws[..i + 1][..i] == ws[..i];
  }
}
