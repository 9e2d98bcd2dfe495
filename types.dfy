/** Machine types shared by the models of the WAL decoder, the watchable
    store and the token keeper. */
module Types {

  /** One octet, as Go's `byte`. */
  type byte = x: int | 0 <= x < 0x100

  /** Go's `int64`. */
  type int64 = x: int | -0x8000_0000_0000_0000 <= x < 0x8000_0000_0000_0000

  /** Go's `uint64`. */
  type uint64 = x: int | 0 <= x < 0x1_0000_0000_0000_0000

  datatype Option<T> = None | Some(value: T)
}
