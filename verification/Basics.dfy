/** What several parts share: optional values, results, integer bounds, powers of two. */
module Basics {

  datatype Option<+T> = None | Some(value: T)

  datatype Result<+T> = Ok(value: T) | Err(code: string)

  /** The largest safe integer, and the largest the wire formats carry: 2^53 - 1. */
  const MAX_SAFE_INTEGER: int := 9007199254740991
  const U53_MAX: nat := 9007199254740991

  function Pow2(n: nat): (p: nat)
    ensures p > 0
  {
    if n == 0 then 1 else 2 * Pow2(n - 1)
  }
}
