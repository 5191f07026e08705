/** Shared vocabulary of the model: an optional value, the f32 score with its
    negative-infinity sentinel, and the (x, y, z) tile coordinate. */
module Basics {

  datatype Option<T> = None | Some(value: T)

  /** Largest value of a Rust `u32`. */
  const U32_MAX: nat := 0xFFFF_FFFF

  /** An f32 score restricted to the values the search produces: minus
      infinity (the sentinel of an empty slot) or a finite value. */
  datatype Score = NegInf | Fin(r: real)

  /** `a <= b` on f32 scores. */
  predicate Le(a: Score, b: Score)
  {
    a.NegInf? || (b.Fin? && a.r <= b.r)
  }

  /** `a < b` on f32 scores. */
  predicate Lt(a: Score, b: Score)
  {
    !Le(b, a)
  }

  /** `a - d` for a finite constant `d`; minus infinity stays minus infinity. */
  function Minus(a: Score, d: real): Score
  {
    if a.NegInf? then NegInf else Fin(a.r - d)
  }

  /** `f32::min(a, b)`. */
  function Min(a: Score, b: Score): Score
  {
    if Le(a, b) then a else b
  }

  /** `(x, y, z)`: column, row and level of a tile in the quad-tree pyramid. */
  type TilePos = (nat, nat, nat)

  lemma LeTotal(a: Score, b: Score)
    ensures Le(a, b) || Le(b, a)
  {
  }

  lemma LeTrans(a: Score, b: Score, c: Score)
    requires Le(a, b) && Le(b, c)
    ensures Le(a, c)
  {
  }

  /** A non-empty sequence is its front followed by its last element. */
  lemma FrontLast<T>(s: seq<T>)
    requires |s| > 0
    ensures s == s[..|s| - 1] + [s[|s| - 1]]
  {
  }
}
