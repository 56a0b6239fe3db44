/** Bytes, optional values and the outcome of a read from a byte buffer. */
module Bytes {

  /** One octet, as `Buffer.readUInt8` returns it. */
  type byte = x: int | 0 <= x < 256

  /**
   * What a read returns: a value, a failure (`false` in the source), or the
   * signal that the data ran out where waiting for more is allowed
   * (`undefined` in the source).
   */
  datatype Read<+T> = Ok(value: T) | Fail | Incomplete

  /** A value that may be absent (`undefined` or `null` in the source). */
  datatype Option<+T> = None | Some(value: T)

  /** `n` zero bytes, as `Buffer.alloc(n)` returns them. */
  function Zeros(n: nat): (r: seq<byte>)
    ensures |r| == n && forall i :: 0 <= i < n ==> r[i] == 0
  {
    seq(n, _ => 0)
  }
}
