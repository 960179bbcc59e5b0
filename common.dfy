/** Optional values, results with an error channel, and Go's fixed-width unsigned integers. */
module Common {

  datatype Option<+T> = None | Some(value: T)

  datatype Result<+T, +E> = Success(value: T) | Failure(error: E)

  /** Go's byte / uint8. */
  type uint8 = n: int | 0 <= n < 0x100

  /** Go's uint16. */
  type uint16 = n: int | 0 <= n < 0x1_0000

  /** Go's uint32. */
  type uint32 = n: int | 0 <= n < 0x1_0000_0000
}
