/** Toroidal wrap-around of a grid coordinate (pos_mod). */
module Torus {

  /** Brings a coordinate that is at most one period out of range back into
      `[0, mod)` with one subtraction or addition; inside that range it is the
      mathematical modulus (Dafny's `%` is Euclidean, so `val % mod` is never
      negative). Outside it the single correction is not enough, as in the
      program. */
  function PosMod(val: int, mod: int): (r: int)
    ensures mod > 0 && -mod <= val < 2 * mod ==> 0 <= r < mod
  {
    if val >= mod then val - mod
    else if val < 0 then val + mod
    else val
  }

  /** Inside that range the single correction is the mathematical modulus. */
  lemma PosModIsMod(val: int, mod: int)
    requires mod > 0 && -mod <= val < 2 * mod
    ensures PosMod(val, mod) == val % mod
  {
  }

  /** Stepping off either face of the grid lands on the opposite face. */
  lemma WrapEdges(mod: int)
    requires mod > 0
    ensures PosMod(-1, mod) == mod - 1
    ensures PosMod(mod, mod) == 0
  {
  }

  /** A step forward followed by a step back (and vice versa) returns to the
      starting coordinate: the neighbour relation is symmetric on the torus. */
  lemma StepBack(v: int, mod: int)
    requires 0 <= v < mod
    ensures PosMod(PosMod(v + 1, mod) - 1, mod) == v
    ensures PosMod(PosMod(v - 1, mod) + 1, mod) == v
  {
  }

  /** `b` is one step forward from `a` exactly when `a` is one step back from `b`. */
  lemma StepPair(a: int, b: int, mod: int)
    requires 0 <= a < mod && 0 <= b < mod
    ensures PosMod(a + 1, mod) == b <==> PosMod(b - 1, mod) == a
    ensures PosMod(a - 1, mod) == b <==> PosMod(b + 1, mod) == a
  {
    StepBack(a, mod);
    StepBack(b, mod);
  }
}
