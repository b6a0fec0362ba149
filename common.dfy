/** Basic vocabulary shared by the other modules: bytes and optional values. */
module Common {

  /** One octet, as Python's `bytes` holds them. */
  newtype byte = x: int | 0 <= x < 256

  type Bytes = seq<byte>

  /** A value that may be missing; `None` stands for a Python exception or an absent row. */
  datatype Option<+T> = None | Some(value: T)
}
