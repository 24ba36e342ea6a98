/** Small shared vocabulary. */
module Wrappers {
  datatype Option<+T> = None | Some(value: T)

  type Bytes = seq<bv8>

  function Min(x: int, y: int): int {
    if x <= y then x else y
  }

  function Max(x: int, y: int): int {
    if x >= y then x else y
  }

  // Division rounded up, for a positive divisor.
  function CeilDiv(x: int, y: int): (r: int)
    requires y > 0
    ensures (r - 1) * y < x <= r * y
  {
    (x + y - 1) / y
  }
}
