/** What several components need of numbers. */
module Numbers {
  function Min(a: int, b: int): int {
    if a < b then a else b
  }

  lemma DivMod(x: nat, d: nat)
    requires d > 0
    ensures x == (x / d) * d + x % d && 0 <= x % d < d
  {
  }

  /** `x >> s`. */
  function ShiftRight(x: nat, s: nat): nat {
    if s == 0 then x else ShiftRight(x / 2, s - 1)
  }

  /** Place of the highest one. */
  function FloorLog2(d: nat): nat
    requires d > 0
  {
    if d == 1 then 0 else 1 + FloorLog2(d / 2)
  }
}
