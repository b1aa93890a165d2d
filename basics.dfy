/** Small shared vocabulary: an optional value, integer minimum/maximum, slices. */
module Basics {

  datatype Option<T> = None | Some(value: T)

  function Min(a: int, b: int): int { if a <= b then a else b }

  function Max(a: int, b: int): int { if a >= b then a else b }

  /** Cutting a slice in two at m. */
  lemma {:induction false} SplitAt<T>(x: seq<T>, s: nat, m: nat, e: nat)
    requires s <= m <= e <= |x|
    ensures x[s..m] + x[m..e] == x[s..e]
  {
  }
}
