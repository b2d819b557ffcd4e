/** Small value types shared by the other modules. */
module Common {

  /** A Java reference that may be null. */
  datatype Option<T> = None | Some(value: T)

  /** One octet, as carried by a Vert.x `Buffer` or produced by `String.getBytes`. */
  newtype byte = x: int | 0 <= x < 0x100
}
