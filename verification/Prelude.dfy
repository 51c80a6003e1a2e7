/** Values shared by all parts of the model. */
module Prelude {

  datatype Option<+T> = None | Some(value: T)

  datatype Result<+T, +E> = Ok(value: T) | Err(error: E)

  function Least(a: int, b: int): int { if a < b then a else b }

  function Most(a: int, b: int): int { if a < b then b else a }

  const U64_MAX := 0xFFFF_FFFF_FFFF_FFFF

  type U64 = x: int | 0 <= x <= U64_MAX

  function SaturatingAdd(a: U64, b: U64): U64 {
    if a + b > U64_MAX then U64_MAX else a + b
  }

  lemma SubsetSize<T>(a: set<T>, b: set<T>)
    requires a <= b
    ensures |a| <= |b|
  {
    assert b == a + (b - a);
  }
}
