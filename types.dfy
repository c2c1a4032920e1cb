/** Types shared by the hash map, the key skip list and the table generator. */
module NghttpTypes {
  /** The C `uint64_t`. */
  newtype uint64 = x: int | 0 <= x < 0x1_0000_0000_0000_0000

  /** A caller's `void *`, never dereferenced; 0 is NULL. */
  newtype Ptr = x: int | 0 <= x < 0x1_0000_0000_0000_0000

  /** A value that may be absent: a NULL pointer, or Python's `None`. */
  datatype Option<T> = None | Some(value: T)
}
