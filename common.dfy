/** Values shared by every component: an optional value and an 8-bit byte. */
module Common {

  /** A value that may be absent: a JavaScript `false`, `undefined` or thrown exception. */
  datatype Option<+T> = None | Some(value: T)

  /** An unsigned 8-bit value, the element type of a `Uint8Array` and of a binary string. */
  type byte = x: int | 0 <= x < 256

  /** 2 to the power n. */
  function Pow2(n: nat): (r: nat)
    ensures r >= 1
  {
    if n == 0 then 1 else 2 * Pow2(n - 1)
  }
}
