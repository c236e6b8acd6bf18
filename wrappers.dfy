/** Small shared types: an optional value, standing for Java's nullable references. */
module Wrappers {

  /** `None` plays the part of Java's `null` where the source returns or stores one. */
  datatype Option<T> = None | Some(value: T)
}

/** Raw bytes, as Java's `byte[]` holds them. */
module Bytes {

  type byte = b: int | 0 <= b < 256
}
